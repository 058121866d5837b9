/**
 * The to-do list web front end: its value types, the lookup of a user's list
 * in the in-memory store, the HTML rendering of a list and the request
 * pipeline of the single route `GET /todo/{user}/{list}`.
 */
module Zettai {

  import opened Wrappers
  import opened KotlinText

  datatype User = User(name: string)
  datatype ListName = ListName(name: string)
  datatype ToDoItem = ToDoItem(description: string)
  datatype ToDoList = ToDoList(listName: ListName, items: seq<ToDoItem>)
  datatype HtmlPage = HtmlPage(raw: string)

  /** The store the application is built with: each user's lists, in order. */
  type Lists = map<User, seq<ToDoList>>

  /** The message of the failure raised when no list matches. */
  const ListUnknown: string := "List unknown"

  /** The path parameters that the route `/todo/{user}/{list}` captured from a request. */
  datatype Request = Request(pathParams: map<string, string>)

  /** The only status the handler itself produces. */
  datatype Status = OK

  datatype Response = Response(status: Status, body: string)

  // ---------------------------------------------------------------------------
  // Extract

  /** `request.path(name)`: the captured segment, if any. */
  function Path(request: Request, name: string): (segment: Option<string>)
    ensures segment.Some? <==> name in request.pathParams
    ensures segment.Some? ==> segment.value == request.pathParams[name]
  {
    if name in request.pathParams then Some(request.pathParams[name]) else None
  }

  /** The `(user, list)` pair a request names; a missing segment becomes the empty name. */
  function ExtractListData(request: Request): (listId: (User, ListName))
    ensures "user" in request.pathParams ==> listId.0.name == request.pathParams["user"]
    ensures "user" !in request.pathParams ==> listId.0.name == ""
    ensures "list" in request.pathParams ==> listId.1.name == request.pathParams["list"]
    ensures "list" !in request.pathParams ==> listId.1.name == ""
  {
    (User(Path(request, "user").GetOr("")), ListName(Path(request, "list").GetOr("")))
  }

  // ---------------------------------------------------------------------------
  // Fetch

  /** `lists[i]` is the first of `lists` whose name is `name`. */
  ghost predicate IsFirstNamed(lists: seq<ToDoList>, name: ListName, i: int) {
    && 0 <= i < |lists|
    && lists[i].listName == name
    && forall j :: 0 <= j < i ==> lists[j].listName != name
  }

  /** `firstOrNull { it.listName == name }` over one owner's lists. */
  function FirstNamed(lists: seq<ToDoList>, name: ListName): (found: Option<ToDoList>)
    ensures found.None? <==> forall i :: 0 <= i < |lists| ==> lists[i].listName != name
    ensures found.Some? ==> exists i :: IsFirstNamed(lists, name, i) && lists[i] == found.value
    decreases |lists|
  {
    if lists == [] then None
    else if lists[0].listName == name then Some(lists[0])
    else
      var rest := FirstNamed(lists[1..], name);
      assert rest.Some? ==> exists i :: IsFirstNamed(lists[1..], name, i) && lists[1..][i] == rest.value;
      assert forall i :: IsFirstNamed(lists[1..], name, i) ==> IsFirstNamed(lists, name, i + 1);
      rest
  }

  /**
   * The list the user filed under `listId.1`, the first one when several
   * share the name; the failure `ListUnknown` when the user is unknown or
   * owns no list of that name.
   */
  function FetchListContent(lists: Lists, listId: (User, ListName)): (r: Result<ToDoList, string>)
    ensures r.Success? <==>
      listId.0 in lists && exists i :: 0 <= i < |lists[listId.0]| && lists[listId.0][i].listName == listId.1
    ensures r.Success? ==> r.value.listName == listId.1
    ensures r.Success? ==> exists i :: IsFirstNamed(lists[listId.0], listId.1, i) && lists[listId.0][i] == r.value
    ensures r.Failure? ==> r.error == ListUnknown
  {
    var owned := if listId.0 in lists then Some(lists[listId.0]) else None;
    match owned
    case None => Failure(ListUnknown)
    case Some(candidates) =>
      match FirstNamed(candidates, listId.1)
      case Some(found) => Success(found)
      case None => Failure(ListUnknown)
  }

  // ---------------------------------------------------------------------------
  // Render

  /** One table row: the interpolated one-line template, passed through `trimIndent()`. */
  function Row(item: ToDoItem): string {
    TrimIndent("<tr><td>" + item.description + "</td></tr>")
  }

  /** `items.map { row }`. */
  function Rows(items: seq<ToDoItem>): (rows: seq<string>)
    ensures |rows| == |items|
    ensures forall i :: 0 <= i < |items| ==> rows[i] == Row(items[i])
    decreases |items|
  {
    if items == [] then [] else [Row(items[0])] + Rows(items[1..])
  }

  /** `items.map { row }.joinToString("")`. */
  function RenderItems(items: seq<ToDoItem>): string {
    JoinToString(Rows(items), "")
  }

  /** The content of each line of the page `renderHtml` writes, without its indentation. */
  function PageContents(name: string, rows: string): seq<string> {
    [ "<html>",
      "<body>",
      "<h1>Zettai</h1>",
      "<h2>" + name + "</h2>",
      "<table>",
      "<tbody>" + rows + "</tbody>",
      "</table>",
      "</body>",
      "</html>"
    ]
  }

  /** How far each line of the page is indented relative to `<html>`. */
  const PageIndents: seq<nat> := [0, 4, 8, 8, 4, 8, 4, 4, 0]

  /**
   * The lines of the multi-line raw string in `renderHtml` once the name and
   * the rows are interpolated: an empty opening line, the page's lines
   * indented by a further twelve columns, and the twelve columns before the
   * closing quotes.
   */
  function PageTemplateLines(name: string, rows: string): seq<string> {
    [""]
      + seq(9, i requires 0 <= i < 9 => Indent(12 + PageIndents[i]) + PageContents(name, rows)[i])
      + [Indent(12)]
  }

  function PageTemplate(name: string, rows: string): string {
    JoinToString(PageTemplateLines(name, rows), "\n")
  }

  /** `renderHtml`: the template with the list's name and rows, after `trimIndent()`. */
  function RenderHtml(todoList: ToDoList): HtmlPage {
    HtmlPage(TrimIndent(PageTemplate(todoList.listName.name, RenderItems(todoList.items))))
  }

  // ---------------------------------------------------------------------------
  // Respond and the pipeline

  /** `Response(Status.OK).body(html.raw)`. */
  function CreateResponse(html: HtmlPage): (response: Response)
    ensures response.status == OK && response.body == html.raw
  {
    Response(OK, html.raw)
  }

  /**
   * `showList`: extract, fetch, render, respond. A lookup failure ends the
   * pipeline with that failure; no later stage runs.
   */
  function ShowList(lists: Lists, request: Request): (r: Result<Response, string>)
    ensures var listId := ExtractListData(request);
      r.Success? <==>
        (listId.0 in lists && exists i :: 0 <= i < |lists[listId.0]| && lists[listId.0][i].listName == listId.1)
    ensures r.Success? ==> var fetched := FetchListContent(lists, ExtractListData(request));
      fetched.Success? && r.value == Response(OK, RenderHtml(fetched.value).raw)
    ensures r.Failure? ==> r.error == ListUnknown
  {
    var listId := ExtractListData(request);
    var todoList :- FetchListContent(lists, listId);
    Success(CreateResponse(RenderHtml(todoList)))
  }
  // ---------------------------------------------------------------------------
  // Properties of the lookup

  /** The lookup reads only the requesting user's own entry of the store. */
  lemma FetchReadsOnlyOwnersLists(lists: Lists, others: Lists, listId: (User, ListName))
    requires listId.0 in lists <==> listId.0 in others
    requires listId.0 in lists ==> lists[listId.0] == others[listId.0]
    ensures FetchListContent(lists, listId) == FetchListContent(others, listId)
  {
  }

  /**
   * A list filed under one user is never what another user gets for its
   * name, unless that other user owns a list of the same name.
   */
  lemma OwnerIsolation(lists: Lists, owner: User, other: User, l: ToDoList)
    requires owner in lists && l in lists[owner]
    requires other !in lists || forall m :: m in lists[other] ==> m.listName != l.listName
    ensures FetchListContent(lists, (other, l.listName)) == Failure(ListUnknown)
    ensures FetchListContent(lists, (owner, l.listName)).Success?
  {
    var i :| 0 <= i < |lists[owner]| && lists[owner][i] == l;
  }

  /** A store with no users knows no list. */
  lemma EmptyStoreKnowsNoList(listId: (User, ListName))
    ensures FetchListContent(map[], listId) == Failure(ListUnknown)
  {
  }

  // ---------------------------------------------------------------------------
  // Properties of the rendering

  /** The table rows for the given cell texts: one `<tr><td>cell</td></tr>` each, in order, nothing between. */
  function TableRows(cells: seq<string>): string
    decreases |cells|
  {
    if cells == [] then "" else "<tr><td>" + cells[0] + "</td></tr>" + TableRows(cells[1..])
  }

  function Descriptions(items: seq<ToDoItem>): (ds: seq<string>)
    ensures |ds| == |items| && forall i :: 0 <= i < |items| ==> ds[i] == items[i].description
  {
    seq(|items|, i requires 0 <= i < |items| => items[i].description)
  }

  /** The lines of the page `renderHtml` produces when no interpolated text breaks a line. */
  function PageLines(name: string, rows: string): seq<string> {
    seq(9, i requires 0 <= i < 9 => Indent(PageIndents[i]) + PageContents(name, rows)[i])
  }

  function Page(name: string, rows: string): string {
    JoinToString(PageLines(name, rows), "\n")
  }

  /** A row is the description verbatim between `<tr><td>` and `</td></tr>`, line breaks normalized to "\n". */
  lemma RowOf(item: ToDoItem)
    ensures Row(item) == "<tr><td>" + NormalizeBreaks(item.description) + "</td></tr>"
  {
    var s := "<tr><td>" + item.description + "</td></tr>";
    RowLastLineNotBlank(item.description);
    assert s[0] == '<';
    TrimIndentUnindented(s);
    RowNormalized(item.description);
  }

  lemma RowLastLineNotBlank(d: string)
    ensures var ls := Lines("<tr><td>" + d + "</td></tr>"); !IsBlank(ls[|ls| - 1])
  {
    var head := "<tr><td>" + d;
    LinesAppendUnbroken(head, "</td></tr>");
    var lh := Lines(head);
    var last := lh[|lh| - 1] + "</td></tr>";
    assert last[|last| - 10] == '<';
  }

  lemma RowNormalized(d: string)
    ensures NormalizeBreaks("<tr><td>" + d + "</td></tr>") == "<tr><td>" + NormalizeBreaks(d) + "</td></tr>"
  {
    NormalizeBetween("<tr><td>", d, "</td></tr>");
  }

  /** The descriptions with their line breaks normalized, as the rows show them. */
  function ShownDescriptions(items: seq<ToDoItem>): (ds: seq<string>)
    ensures |ds| == |items| && forall i :: 0 <= i < |items| ==> ds[i] == NormalizeBreaks(items[i].description)
  {
    seq(|items|, i requires 0 <= i < |items| => NormalizeBreaks(items[i].description))
  }

  /** `renderItems` is the table rows of the shown descriptions, in the items' order. */
  lemma {:induction false} RenderItemsRows(items: seq<ToDoItem>)
    ensures RenderItems(items) == TableRows(ShownDescriptions(items))
    decreases |items|
  {
    if items != [] {
      RenderItemsRows(items[1..]);
      RenderItemsCons(items);
      RowOf(items[0]);
      assert ShownDescriptions(items)[1..] == ShownDescriptions(items[1..]);
    }
  }

  lemma RenderItemsCons(items: seq<ToDoItem>)
    requires items != []
    ensures RenderItems(items) == Row(items[0]) + RenderItems(items[1..])
  {
    JoinEmptyAppend([Row(items[0])], Rows(items[1..]));
  }

  /** Rendering the items of two lists one after the other renders their concatenation. */
  lemma RenderItemsAppend(a: seq<ToDoItem>, b: seq<ToDoItem>)
    ensures RenderItems(a + b) == RenderItems(a) + RenderItems(b)
  {
    RowsAppend(a, b);
    JoinEmptyAppend(Rows(a), Rows(b));
  }

  lemma {:induction false} RowsAppend(a: seq<ToDoItem>, b: seq<ToDoItem>)
    ensures Rows(a + b) == Rows(a) + Rows(b)
    decreases |a|
  {
    if a == [] {
      assert a + b == b;
    } else {
      assert (a + b)[0] == a[0] && (a + b)[1..] == a[1..] + b;
      RowsAppend(a[1..], b);
    }
  }

  lemma {:induction false} TableRowsUnbroken(cells: seq<string>)
    requires forall i :: 0 <= i < |cells| ==> NoLineBreak(cells[i])
    ensures NoLineBreak(TableRows(cells))
    decreases |cells|
  {
    if cells != [] {
      TableRowsUnbroken(cells[1..]);
    }
  }

  /** Without line breaks in the descriptions, the rows hold the descriptions verbatim and break no line. */
  lemma RenderItemsOfUnbroken(items: seq<ToDoItem>)
    requires forall i :: 0 <= i < |items| ==> NoLineBreak(items[i].description)
    ensures RenderItems(items) == TableRows(Descriptions(items))
    ensures NoLineBreak(RenderItems(items))
  {
    RenderItemsRows(items);
    forall i | 0 <= i < |items| ensures NormalizeBreaks(items[i].description) == items[i].description {
      NormalizeUnbroken(items[i].description);
    }
    assert ShownDescriptions(items) == Descriptions(items);
    TableRowsUnbroken(Descriptions(items));
  }

  /**
   * When neither the name nor any description breaks a line, `renderHtml`
   * puts the name verbatim between `<h2>` and `</h2>` and the rows verbatim
   * between `<tbody>` and `</tbody>` of a fixed page.
   */
  lemma RenderHtmlLayout(todoList: ToDoList)
    requires NoLineBreak(todoList.listName.name)
    requires forall i :: 0 <= i < |todoList.items| ==> NoLineBreak(todoList.items[i].description)
    ensures RenderHtml(todoList).raw == Page(todoList.listName.name, TableRows(Descriptions(todoList.items)))
  {
    var name := todoList.listName.name;
    RenderItemsOfUnbroken(todoList.items);
    var rows := RenderItems(todoList.items);
    var ls := PageTemplateLines(name, rows);
    TemplateShape(name, rows);
    TrimIndentBlock(ls, 12, 1);
    TemplateDedented(name, rows);
  }

  /** The lines `trimIndent()` leaves of the interpolated template, before they are re-joined. */
  function RenderedLines(todoList: ToDoList): seq<string> {
    TrimmedLines(PageTemplate(todoList.listName.name, RenderItems(todoList.items)))
  }

  /** The columns `trimIndent()` cuts from every line of the interpolated template. */
  function RenderedDedent(todoList: ToDoList): nat {
    TrimWidth(PageTemplate(todoList.listName.name, RenderItems(todoList.items)))
  }

  /**
   * `out` opens with the page's first four lines, up to the `<h2>` heading
   * holding `name`, each less the same `m <= 12` columns of the template's margin.
   */
  predicate OpensWithHeading(out: seq<string>, m: nat, name: string) {
    && m <= 12 && |out| >= 4
    && forall i :: 0 <= i < 4 ==> out[i] == Indent(12 + PageIndents[i] - m) + PageContents(name, "")[i]
  }

  /**
   * Whatever the descriptions hold, the page `renderHtml` gives opens with
   * the four fixed lines up to the `<h2>` heading, the name verbatim in it:
   * `trimIndent()` cuts the same columns from each, at most the twelve of
   * `<html>` in the template.
   */
  lemma RenderHtmlOpening(todoList: ToDoList)
    requires NoLineBreak(todoList.listName.name)
    ensures RenderHtml(todoList).raw == JoinToString(RenderedLines(todoList), "\n")
    ensures OpensWithHeading(RenderedLines(todoList), RenderedDedent(todoList), todoList.listName.name)
  {
    TemplateOpens(todoList.listName.name, RenderItems(todoList.items));
  }

  /** `trimIndent()` of the interpolated template keeps its four opening lines, dedented alike. */
  lemma TemplateOpens(name: string, rows: string)
    requires NoLineBreak(name)
    ensures OpensWithHeading(TrimmedLines(PageTemplate(name, rows)), TrimWidth(PageTemplate(name, rows)), name)
  {
    var tl := PageTemplateLines(name, rows);
    assert PageTemplate(name, rows) == JoinToString(tl, "\n");
    TemplateOpeningLines(name, rows);
    OpeningContentsAreTags(name);
    HeadingOfTemplate(tl, name, TrimmedLines(PageTemplate(name, rows)), TrimWidth(PageTemplate(name, rows)));
  }

  /** Lines whose opening is the template's keep it, dedented alike, through `trimIndent()`. */
  lemma HeadingOfTemplate(tl: seq<string>, name: string, out: seq<string>, m: nat)
    requires NoLineBreak(name)
    requires |tl| >= 6 && tl[0] == ""
    requires forall i :: 0 <= i < 4 ==> tl[i + 1] == Indent(12 + PageIndents[i]) + PageContents(name, "")[i]
    requires var cs := PageContents(name, ""); forall i :: 0 <= i < 4 ==> cs[i] != [] && cs[i][0] == '<' && NoLineBreak(cs[i])
    requires out == TrimmedLines(JoinToString(tl, "\n")) && m == TrimWidth(JoinToString(tl, "\n"))
    ensures OpensWithHeading(out, m, name)
  {
    OpeningOfTemplate(tl, PageContents(name, ""), PageIndents, out, m);
  }

  /**
   * `trimIndent()` of lines shaped like the template's opening keeps that
   * opening: the first four of its lines `out` are the tag lines less the
   * same `m <= 12` columns.
   */
  lemma OpeningOfTemplate(tl: seq<string>, cs: seq<string>, ind: seq<nat>, out: seq<string>, m: nat)
    requires |tl| >= 6 && |cs| >= 4 && |ind| >= 4 && tl[0] == "" && ind[0] == 0
    requires forall i :: 0 <= i < 4 ==> tl[i + 1] == Indent(12 + ind[i]) + cs[i]
    requires forall i :: 0 <= i < 4 ==> cs[i] != [] && cs[i][0] == '<' && NoLineBreak(cs[i])
    requires out == TrimmedLines(JoinToString(tl, "\n")) && m == TrimWidth(JoinToString(tl, "\n"))
    ensures m <= 12 && |out| >= 4
    ensures forall i :: 0 <= i < 4 ==> out[i] == Indent(12 + ind[i] - m) + cs[i]
  {
    IndentedOpening(tl, cs, ind);
    TrimIndentOpening(tl, 4, 12);
    DedentedOpening(tl, out, m, cs, ind);
  }

  /** Cutting `m <= 12` columns from lines indented by `12 + ind[i]` leaves `ind[i] + 12 - m`. */
  lemma DedentedOpening(tl: seq<string>, out: seq<string>, m: nat, cs: seq<string>, ind: seq<nat>)
    requires |tl| >= 5 && |out| >= 4 && |cs| >= 4 && |ind| >= 4 && m <= 12
    requires forall i :: 0 <= i < 4 ==> out[i] == Drop(tl[i + 1], m)
    requires forall i :: 0 <= i < 4 ==> tl[i + 1] == Indent(12 + ind[i]) + cs[i]
    ensures forall i :: 0 <= i < 4 ==> out[i] == Indent(12 + ind[i] - m) + cs[i]
  {
    forall i | 0 <= i < 4 ensures out[i] == Indent(12 + ind[i] - m) + cs[i] {
      DropIndent(12 + ind[i], m, cs[i]);
    }
  }

  /**
   * Lines shaped like the template's opening (a blank line, then tags
   * indented by `12 + ind[i]`, the first by twelve) break no line, and the
   * first tag line is non-blank with width twelve.
   */
  lemma IndentedOpening(tl: seq<string>, cs: seq<string>, ind: seq<nat>)
    requires |tl| >= 5 && |cs| >= 4 && |ind| >= 4 && tl[0] == "" && ind[0] == 0
    requires forall i :: 0 <= i < 4 ==> tl[i + 1] == Indent(12 + ind[i]) + cs[i]
    requires forall i :: 0 <= i < 4 ==> cs[i] != [] && cs[i][0] == '<' && NoLineBreak(cs[i])
    ensures IsBlank(tl[0]) && !IsBlank(tl[1]) && IndentWidth(tl[1]) == 12
    ensures forall i :: 0 <= i < 5 ==> NoLineBreak(tl[i])
  {
    forall i | 1 <= i < 5 ensures NoLineBreak(tl[i]) {
      IndentedWidth(12 + ind[i - 1], cs[i - 1]);
    }
    IndentedWidth(12, cs[0]);
  }

  /** The template's lines before the table, as the page's lines indented by twelve more columns. */
  lemma TemplateOpeningLines(name: string, rows: string)
    ensures var tl := PageTemplateLines(name, rows);
      && |tl| == 11 && tl[0] == ""
      && forall i :: 0 <= i < 4 ==> tl[i + 1] == Indent(12 + PageIndents[i]) + PageContents(name, "")[i]
  {
  }

  /** The page's lines up to the heading start with `<` and break no line. */
  lemma OpeningContentsAreTags(name: string)
    requires NoLineBreak(name)
    ensures var cs := PageContents(name, ""); forall i :: 0 <= i < 4 ==> cs[i] != [] && cs[i][0] == '<' && NoLineBreak(cs[i])
  {
  }

  /** The template's first and last lines are blank, and its least indentation is that of `<html>`. */
  lemma TemplateShape(name: string, rows: string)
    requires NoLineBreak(name) && NoLineBreak(rows)
    ensures var ls := PageTemplateLines(name, rows);
      && |ls| == 11
      && (forall i :: 0 <= i < |ls| ==> NoLineBreak(ls[i]))
      && IsBlank(ls[0]) && IsBlank(ls[|ls| - 1])
      && !IsBlank(ls[1]) && IndentWidth(ls[1]) == 12
      && (forall i :: 0 < i < |ls| - 1 ==> 12 <= IndentWidth(ls[i]))
  {
    var ls := PageTemplateLines(name, rows);
    var cs := PageContents(name, rows);
    PageContentsAreTags(name, rows);
    forall i | 0 < i < |ls| - 1 ensures NoLineBreak(ls[i]) && 12 <= IndentWidth(ls[i]) {
      assert ls[i] == Indent(12 + PageIndents[i - 1]) + cs[i - 1];
      IndentedWidth(12 + PageIndents[i - 1], cs[i - 1]);
    }
    IndentedWidth(12, cs[0]);
  }

  /** Every line of the page starts with `<` and breaks no line. */
  lemma PageContentsAreTags(name: string, rows: string)
    requires NoLineBreak(name) && NoLineBreak(rows)
    ensures var cs := PageContents(name, rows);
      |cs| == 9 && forall i :: 0 <= i < 9 ==> cs[i] != [] && cs[i][0] == '<' && NoLineBreak(cs[i])
  {
  }

  /** Cutting twelve characters from the template's inner lines gives the page's lines. */
  lemma TemplateDedented(name: string, rows: string)
    ensures var ls := PageTemplateLines(name, rows);
      seq(|ls| - 2, i requires 0 <= i < |ls| - 2 => Drop(ls[i + 1], 12)) == PageLines(name, rows)
  {
    var ls := PageTemplateLines(name, rows);
    var cs := PageContents(name, rows);
    forall i | 0 <= i < 9 ensures Drop(ls[i + 1], 12) == PageLines(name, rows)[i] {
      assert ls[i + 1] == Indent(12 + PageIndents[i]) + cs[i];
      DropIndent(12 + PageIndents[i], 12, cs[i]);
    }
  }
}
