/**
 * The holiday table of `PdfService.generateHtmlWithAlternativeList`: the `<tbody>` built
 * one row per holiday, and the numbered test list that follows the table.
 *
 * The page is a `StringBuilder`; each specification function below takes the text built
 * so far and returns it with more appended, in the order the source appends.
 */
module HtmlTable {
  import opened Base
  import opened JavaText
  import opened Holidays
  import opened HtmlEscape
  import opened HtmlTags

  /**
   * The date column: an eight-character date `YYYYMMDD` is shown as `YYYY/MM/DD`; null
   * and any other length are left as they are.
   */
  function FormatDate(date: JString): (r: JString)
    ensures date.None? || |date.value| != 8 ==> r == date
    ensures date.Some? && |date.value| == 8 ==>
      && r.Some? && |r.value| == 10 && r.value[4] == '/' && r.value[7] == '/'
      && r.value[..4] == date.value[..4] && r.value[5..7] == date.value[4..6] && r.value[8..] == date.value[6..]
  {
    match date
    case Some(d) => if |d| == 8 then Some(d[0..4] + "/" + d[4..6] + "/" + d[6..8]) else date
    case None => date
  }

  /** Takes the two separators out of a `YYYY/MM/DD` date. */
  function RemoveDateSlashes(f: string): string {
    if |f| == 10 && f[4] == '/' && f[7] == '/' then f[..4] + f[5..7] + f[8..] else f
  }

  /** Removing the two inserted slashes gives back the original eight characters. */
  lemma FormatDateRoundTrip(d: string)
    requires |d| == 8
    ensures RemoveDateSlashes(FormatDate(Some(d)).value) == d
  {
    var f := FormatDate(Some(d)).value;
    assert f[..4] + f[5..7] + f[8..] == d[..4] + d[4..6] + d[6..];
    assert d == d[..4] + d[4..6] + d[6..];
  }

  /** The badge's CSS class. */
  function BadgeClass(isHoliday: bool): string {
    if isHoliday then "badge-yes" else "badge-no"
  }

  /** The badge's text: a day off or a working day. */
  function BadgeText(isHoliday: bool): string {
    if isHoliday then "放假" else "上班"
  }

  /** The badge shows `badge-yes`/放假 exactly for a holiday and `badge-no`/上班 exactly otherwise. */
  lemma BadgeFollowsIsHoliday(isHoliday: bool)
    ensures (BadgeClass(isHoliday) == "badge-yes" && BadgeText(isHoliday) == "放假") <==> isHoliday
    ensures (BadgeClass(isHoliday) == "badge-no" && BadgeText(isHoliday) == "上班") <==> !isHoliday
  {
  }

  /** Whether the note is shown: it is non-null and non-empty. */
  predicate HasNote(note: JString) {
    note.Some? && note.value != []
  }

  /** The opening tag of the three centred cells. */
  const Centered := "td class='text-center'"

  /** The badge's opening tag, named by its class. */
  function BadgeOpen(isHoliday: bool): string {
    "span class='badge " + BadgeClass(isHoliday) + "'"
  }

  /** The date cell: the formatted date, appended without escaping. */
  function AppendDateCell(sb: string, date: JString): string {
    sb + Tag(Centered) + AppendText(FormatDate(date)) + Tag("/td")
  }

  /** The badge cell. */
  function AppendBadgeCell(sb: string, isHoliday: bool): string {
    sb + Tag(Centered) + Tag(BadgeOpen(isHoliday)) + BadgeText(isHoliday) + Tag("/span") + Tag("/td")
  }

  /** A cell holding escaped text: the name (plain `td`) or the category (centred). */
  function AppendTextCell(sb: string, open: string, text: JString): string {
    sb + Tag(open) + EscapeHtml(text) + Tag("/td")
  }

  /** The note, shown only when non-null and non-empty: a line break and the escaped note in parentheses. */
  function AppendNote(sb: string, note: JString): string {
    if HasNote(note) then sb + Tag("br/") + Tag("span class='note'") + "(" + EscapeHtml(note) + ")" + Tag("/span")
    else sb
  }

  /** The note is appended exactly when it is non-null and non-empty. */
  lemma NoteShownIffPresent(sb: string, note: JString)
    ensures AppendNote(sb, note) == sb <==> !HasNote(note)
  {
    if HasNote(note) {
      assert |AppendNote(sb, note)| > |sb|;
    }
  }

  /**
   * A shown note follows a line break and the note span's opening tag; its parentheses
   * enclose the escaped note, which decodes back to the note.
   */
  lemma NoteEnclosesEscapedNote(sb: string, note: JString)
    requires HasNote(note)
    ensures
      var open := Tag("br/") + Tag("span class='note'") + "(";
      var close := ")" + Tag("/span");
      var added := AppendNote(sb, note)[|sb|..];
      && |added| >= |open| + |close|
      && added[..|open|] == open
      && added[|added| - |close|..] == close
      && UnescapeHtml(added[|open|..|added| - |close|]) == note.value
  {
    var open := Tag("br/") + Tag("span class='note'") + "(";
    var close := ")" + Tag("/span");
    var e := EscapeHtml(note);
    var added := AppendNote(sb, note)[|sb|..];
    assert added == open + e + close;
    assert added[..|open|] == open;
    assert added[|added| - |close|..] == close;
    assert added[|open|..|added| - |close|] == e;
    EscapeRoundTrip(note.value);
  }

  /** The description cell: the escaped description, then the note. */
  function AppendDescriptionCell(sb: string, description: JString, note: JString): string {
    AppendNote(sb + Tag("td") + EscapeHtml(description), note) + Tag("/td")
  }

  /** One holiday's `<tr>`: date, badge, name, category and description cells. */
  function AppendRow(sb: string, h: Holiday): string {
    var date := AppendDateCell(sb + Tag("tr"), h.date);
    var badge := AppendBadgeCell(date, h.isHoliday);
    var name := AppendTextCell(badge, "td", h.name);
    var category := AppendTextCell(name, Centered, h.holidayCategory);
    AppendDescriptionCell(category, h.description, h.note) + Tag("/tr")
  }

  /** The rows of all holidays, in input order. */
  function AppendRows(sb: string, hs: seq<Holiday>): string
    decreases |hs|
  {
    if hs == [] then sb else AppendRow(AppendRows(sb, hs[..|hs| - 1]), hs[|hs| - 1])
  }

  /** One more holiday appends one more row. */
  lemma AppendRowsSnoc(sb: string, hs: seq<Holiday>, i: nat)
    requires i < |hs|
    ensures AppendRows(sb, hs[..i + 1]) == AppendRow(AppendRows(sb, hs[..i]), hs[i])
  {
    assert hs[..i + 1][..i] == hs[..i];
  }

  /** The table body: "<tbody>", the rows, "</tbody></table>". */
  function TableBody(sb: string, hs: seq<Holiday>): string {
    AppendRows(sb + Tag("tbody"), hs) + Tag("/tbody") + Tag("/table")
  }

  /** The loop body: appends one holiday's row. */
  method AppendHolidayRow(sb: string, holiday: Holiday) returns (html: string)
    ensures html == AppendRow(sb, holiday)
  {
    html := sb + Tag("tr");

    var formattedDate := FormatDate(holiday.date);
    html := html + Tag(Centered) + AppendText(formattedDate) + Tag("/td");
    ghost var date := html;

    var badgeClass := BadgeClass(holiday.isHoliday);
    var badgeText := BadgeText(holiday.isHoliday);
    html := html + Tag(Centered);
    html := html + Tag("span class='badge " + badgeClass + "'") + badgeText + Tag("/span");
    html := html + Tag("/td");
    assert html == AppendBadgeCell(date, holiday.isHoliday);

    html := html + Tag("td") + EscapeHtml(holiday.name) + Tag("/td");
    html := html + Tag(Centered) + EscapeHtml(holiday.holidayCategory) + Tag("/td");
    ghost var category := html;

    html := html + Tag("td");
    html := html + EscapeHtml(holiday.description);
    if holiday.note.Some? && holiday.note.value != [] {
      html := html + Tag("br/") + Tag("span class='note'") + "(" + EscapeHtml(holiday.note) + ")" + Tag("/span");
    }
    html := html + Tag("/td");
    assert html == AppendDescriptionCell(category, holiday.description, holiday.note);

    html := html + Tag("/tr");
  }

  /** The loop over the holidays that appends the table body to the page. */
  method AppendTableBody(sb: string, holidays: seq<Holiday>) returns (html: string)
    ensures html == TableBody(sb, holidays)
  {
    html := sb + Tag("tbody");
    var i := 0;
    while i < |holidays|
      invariant 0 <= i <= |holidays|
      invariant html == AppendRows(sb + Tag("tbody"), holidays[..i])
    {
      AppendRowsSnoc(sb + Tag("tbody"), holidays, i);
      html := AppendHolidayRow(html, holidays[i]);
      i := i + 1;
    }
    assert holidays[..i] == holidays;
    html := html + Tag("/tbody") + Tag("/table");
  }

  /** The dates of a holiday list contain no "<", so the unescaped date cannot open a tag. */
  predicate PlainDate(date: JString) {
    date.Some? ==> '<' !in date.value
  }

  /** The formatted date holds a "<" only if the date does. */
  lemma FormattedDateIsPlain(date: JString)
    requires PlainDate(date)
    ensures '<' !in AppendText(FormatDate(date))
  {
    if date.Some? && |date.value| == 8 {
      var d := date.value;
      var text := AppendText(FormatDate(date));
      forall i | 0 <= i < |text| ensures text[i] != '<' {
        assert text == d[0..4] + "/" + d[4..6] + "/" + d[6..8];
        assert text[i] == '/' || text[i] in d;
      }
    }
  }

  // The same row as a sequence of pieces: each tag and each text the loop appends.

  function DateCellPieces(date: JString): seq<Piece> {
    [Markup(Centered), Text(AppendText(FormatDate(date))), Markup("/td")]
  }

  function BadgePieces(isHoliday: bool): seq<Piece> {
    [Markup(BadgeOpen(isHoliday)), Text(BadgeText(isHoliday)), Markup("/span")]
  }

  function BadgeCellPieces(isHoliday: bool): seq<Piece> {
    [Markup(Centered)] + BadgePieces(isHoliday) + [Markup("/td")]
  }

  function TextCellPieces(open: string, text: JString): seq<Piece> {
    [Markup(open), Text(EscapeHtml(text)), Markup("/td")]
  }

  function NotePieces(note: JString): seq<Piece> {
    if HasNote(note) then
      [Markup("br/"), Markup("span class='note'")] + [Text("("), Text(EscapeHtml(note)), Text(")")] + [Markup("/span")]
    else []
  }

  function DescriptionCellPieces(description: JString, note: JString): seq<Piece> {
    [Markup("td"), Text(EscapeHtml(description))] + NotePieces(note) + [Markup("/td")]
  }

  function RowPieces(h: Holiday): seq<Piece> {
    [Markup("tr")]
    + DateCellPieces(h.date)
    + BadgeCellPieces(h.isHoliday)
    + TextCellPieces("td", h.name)
    + TextCellPieces(Centered, h.holidayCategory)
    + DescriptionCellPieces(h.description, h.note)
    + [Markup("/tr")]
  }

  function RowsPieces(hs: seq<Holiday>): seq<Piece>
    decreases |hs|
  {
    if hs == [] then [] else RowsPieces(hs[..|hs| - 1]) + RowPieces(hs[|hs| - 1])
  }

  function TableBodyPieces(hs: seq<Holiday>): seq<Piece> {
    [Markup("tbody")] + RowsPieces(hs) + [Markup("/tbody"), Markup("/table")]
  }

  lemma DateCellBuild(sb: string, date: JString)
    ensures Build(sb, DateCellPieces(date)) == AppendDateCell(sb, date)
  {
    BuildThree(sb, Markup(Centered), Text(AppendText(FormatDate(date))), Markup("/td"));
  }

  lemma BadgeCellBuild(sb: string, isHoliday: bool)
    ensures Build(sb, BadgeCellPieces(isHoliday)) == AppendBadgeCell(sb, isHoliday)
  {
    var head := [Markup(Centered)];
    var badge := BadgePieces(isHoliday);
    BuildOne(sb, Markup(Centered));
    BuildAppend(sb, head, badge);
    BuildThree(sb + Tag(Centered), Markup(BadgeOpen(isHoliday)), Text(BadgeText(isHoliday)), Markup("/span"));
    BuildSnoc(sb, head + badge, Markup("/td"));
  }

  lemma TextCellBuild(sb: string, open: string, text: JString)
    ensures Build(sb, TextCellPieces(open, text)) == AppendTextCell(sb, open, text)
  {
    BuildThree(sb, Markup(open), Text(EscapeHtml(text)), Markup("/td"));
  }

  lemma NoteBuild(sb: string, note: JString)
    ensures Build(sb, NotePieces(note)) == AppendNote(sb, note)
  {
    if HasNote(note) {
      var open := [Markup("br/"), Markup("span class='note'")];
      var text := [Text("("), Text(EscapeHtml(note)), Text(")")];
      BuildTwo(sb, Markup("br/"), Markup("span class='note'"));
      BuildAppend(sb, open, text);
      BuildThree(Build(sb, open), Text("("), Text(EscapeHtml(note)), Text(")"));
      BuildSnoc(sb, open + text, Markup("/span"));
    }
  }

  lemma DescriptionCellBuild(sb: string, description: JString, note: JString)
    ensures Build(sb, DescriptionCellPieces(description, note)) == AppendDescriptionCell(sb, description, note)
  {
    var start := [Markup("td"), Text(EscapeHtml(description))];
    var notes := NotePieces(note);
    BuildTwo(sb, Markup("td"), Text(EscapeHtml(description)));
    BuildAppend(sb, start, notes);
    NoteBuild(Build(sb, start), note);
    BuildSnoc(sb, start + notes, Markup("/td"));
  }

  /** The piece sequence of a row builds exactly the text the loop appends. */
  lemma RowBuild(sb: string, h: Holiday)
    ensures Build(sb, RowPieces(h)) == AppendRow(sb, h)
  {
    var p0 := [Markup("tr")];
    var p1 := p0 + DateCellPieces(h.date);
    var p2 := p1 + BadgeCellPieces(h.isHoliday);
    var p3 := p2 + TextCellPieces("td", h.name);
    var p4 := p3 + TextCellPieces(Centered, h.holidayCategory);
    var p5 := p4 + DescriptionCellPieces(h.description, h.note);
    BuildOne(sb, Markup("tr"));
    BuildAppend(sb, p0, DateCellPieces(h.date));
    DateCellBuild(Build(sb, p0), h.date);
    BuildAppend(sb, p1, BadgeCellPieces(h.isHoliday));
    BadgeCellBuild(Build(sb, p1), h.isHoliday);
    BuildAppend(sb, p2, TextCellPieces("td", h.name));
    TextCellBuild(Build(sb, p2), "td", h.name);
    BuildAppend(sb, p3, TextCellPieces(Centered, h.holidayCategory));
    TextCellBuild(Build(sb, p3), Centered, h.holidayCategory);
    BuildAppend(sb, p4, DescriptionCellPieces(h.description, h.note));
    DescriptionCellBuild(Build(sb, p4), h.description, h.note);
    BuildSnoc(sb, p5, Markup("/tr"));
  }

  lemma {:induction false} RowsBuild(sb: string, hs: seq<Holiday>)
    ensures Build(sb, RowsPieces(hs)) == AppendRows(sb, hs)
    decreases |hs|
  {
    if hs != [] {
      var init := hs[..|hs| - 1];
      RowsBuild(sb, init);
      BuildAppend(sb, RowsPieces(init), RowPieces(hs[|hs| - 1]));
      RowBuild(AppendRows(sb, init), hs[|hs| - 1]);
    }
  }

  /** The table body is the text of its pieces. */
  lemma TableBodyBuild(sb: string, hs: seq<Holiday>)
    ensures Build(sb, TableBodyPieces(hs)) == TableBody(sb, hs)
  {
    var head := [Markup("tbody")];
    var rows := RowsPieces(hs);
    BuildOne(sb, Markup("tbody"));
    BuildAppend(sb, head, rows);
    RowsBuild(sb + Tag("tbody"), hs);
    BuildAppend(sb, head + rows, [Markup("/tbody"), Markup("/table")]);
    BuildTwo(Build(sb, head + rows), Markup("/tbody"), Markup("/table"));
  }

  /** The badge's tags: its opening `span` and `/span`. */
  function BadgeTags(isHoliday: bool): seq<string> {
    [BadgeOpen(isHoliday), "/span"]
  }

  /** The note's tags, present only when the note is shown. */
  function NoteTags(note: JString): seq<string> {
    if HasNote(note) then ["br/", "span class='note'", "/span"] else []
  }

  /** A plain cell's tags: its opening tag and `/td`. */
  function CellTags(open: string): seq<string> {
    [open, "/td"]
  }

  function BadgeCellTags(isHoliday: bool): seq<string> {
    [Centered] + BadgeTags(isHoliday) + ["/td"]
  }

  function DescriptionCellTags(note: JString): seq<string> {
    ["td"] + NoteTags(note) + ["/td"]
  }

  /** The tag sequence of one row: `tr`, the five cells in order, `/tr`. */
  function RowTags(h: Holiday): seq<string> {
    ["tr"]
    + CellTags(Centered)
    + BadgeCellTags(h.isHoliday)
    + CellTags("td")
    + CellTags(Centered)
    + DescriptionCellTags(h.note)
    + ["/tr"]
  }

  /** The tags of all rows, in input order. */
  function RowsTags(hs: seq<Holiday>): seq<string>
    decreases |hs|
  {
    if hs == [] then [] else RowsTags(hs[..|hs| - 1]) + RowTags(hs[|hs| - 1])
  }

  /** The tags of the table body: `tbody`, the rows in input order, `/tbody`, `/table`. */
  function TableBodyTags(hs: seq<Holiday>): seq<string> {
    ["tbody"] + RowsTags(hs) + ["/tbody", "/table"]
  }

  lemma NoteTagsOf(note: JString)
    ensures TagsOf(NotePieces(note)) == NoteTags(note)
  {
    if HasNote(note) {
      var open := [Markup("br/"), Markup("span class='note'")];
      var text := [Text("("), Text(EscapeHtml(note)), Text(")")];
      TagsOfTwo(Markup("br/"), Markup("span class='note'"));
      BuildThree("", Text("("), Text(EscapeHtml(note)), Text(")"));
      TagsOfAppend(open, text);
      TagsOfSnoc(open + text, Markup("/span"));
    }
  }

  lemma BadgeCellTagsOf(isHoliday: bool)
    ensures TagsOf(BadgeCellPieces(isHoliday)) == BadgeCellTags(isHoliday)
  {
    var head := [Markup(Centered)];
    var badge := BadgePieces(isHoliday);
    BuildThree("", Markup(BadgeOpen(isHoliday)), Text(BadgeText(isHoliday)), Markup("/span"));
    TagsOfOne(Markup(Centered));
    TagsOfAppend(head, badge);
    TagsOfSnoc(head + badge, Markup("/td"));
  }

  lemma DescriptionCellTagsOf(description: JString, note: JString)
    ensures TagsOf(DescriptionCellPieces(description, note)) == DescriptionCellTags(note)
  {
    var start := [Markup("td"), Text(EscapeHtml(description))];
    var notes := NotePieces(note);
    TagsOfTwo(Markup("td"), Text(EscapeHtml(description)));
    NoteTagsOf(note);
    TagsOfAppend(start, notes);
    TagsOfSnoc(start + notes, Markup("/td"));
  }

  lemma CellTagsOf(open: string, text: string)
    ensures TagsOf([Markup(open), Text(text), Markup("/td")]) == CellTags(open)
  {
    BuildThree("", Markup(open), Text(text), Markup("/td"));
  }

  /** The tags among a row's pieces are the row's tags. */
  lemma RowTagsOf(h: Holiday)
    ensures TagsOf(RowPieces(h)) == RowTags(h)
  {
    var p0 := [Markup("tr")];
    var p1 := p0 + DateCellPieces(h.date);
    var p2 := p1 + BadgeCellPieces(h.isHoliday);
    var p3 := p2 + TextCellPieces("td", h.name);
    var p4 := p3 + TextCellPieces(Centered, h.holidayCategory);
    var p5 := p4 + DescriptionCellPieces(h.description, h.note);
    var t0 := ["tr"];
    var t1 := t0 + CellTags(Centered);
    var t2 := t1 + BadgeCellTags(h.isHoliday);
    var t3 := t2 + CellTags("td");
    var t4 := t3 + CellTags(Centered);
    var t5 := t4 + DescriptionCellTags(h.note);
    TagsOfOne(Markup("tr"));
    assert TagsOf(p0) == t0;
    CellTagsOf(Centered, AppendText(FormatDate(h.date)));
    TagsOfAppend(p0, DateCellPieces(h.date));
    assert TagsOf(p1) == t1;
    BadgeCellTagsOf(h.isHoliday);
    TagsOfAppend(p1, BadgeCellPieces(h.isHoliday));
    assert TagsOf(p2) == t2;
    CellTagsOf("td", EscapeHtml(h.name));
    TagsOfAppend(p2, TextCellPieces("td", h.name));
    assert TagsOf(p3) == t3;
    CellTagsOf(Centered, EscapeHtml(h.holidayCategory));
    TagsOfAppend(p3, TextCellPieces(Centered, h.holidayCategory));
    assert TagsOf(p4) == t4;
    DescriptionCellTagsOf(h.description, h.note);
    TagsOfAppend(p4, DescriptionCellPieces(h.description, h.note));
    assert TagsOf(p5) == t5;
    TagsOfSnoc(p5, Markup("/tr"));
  }

  // Every piece of the table reads back as written.

  lemma DateCellWellFormed(date: JString)
    requires PlainDate(date)
    ensures WellFormed(DateCellPieces(date))
  {
    FormattedDateIsPlain(date);
    assert '>' !in Centered && '>' !in "/td";
    WellFormedThree(Markup(Centered), Text(AppendText(FormatDate(date))), Markup("/td"));
  }

  lemma BadgeOpenIsTagName(isHoliday: bool)
    ensures '>' !in BadgeOpen(isHoliday)
  {
    var open := BadgeOpen(isHoliday);
    forall i | 0 <= i < |open| ensures open[i] != '>' {
      if i < 18 {
        assert open[i] == "span class='badge "[i];
      } else if i < 18 + |BadgeClass(isHoliday)| {
        assert open[i] == BadgeClass(isHoliday)[i - 18];
      }
    }
  }

  lemma BadgeTextIsPlain(isHoliday: bool)
    ensures '<' !in BadgeText(isHoliday)
  {
  }

  lemma BadgeCellWellFormed(isHoliday: bool)
    ensures WellFormed(BadgeCellPieces(isHoliday))
  {
    BadgeOpenIsTagName(isHoliday);
    BadgeTextIsPlain(isHoliday);
    assert '>' !in "/span";
    WellFormedThree(Markup(BadgeOpen(isHoliday)), Text(BadgeText(isHoliday)), Markup("/span"));
    assert '>' !in Centered && '>' !in "/td";
    WellFormedOne(Markup(Centered));
    WellFormedOne(Markup("/td"));
    WellFormedAppend([Markup(Centered)], BadgePieces(isHoliday));
    WellFormedAppend([Markup(Centered)] + BadgePieces(isHoliday), [Markup("/td")]);
  }

  lemma TextCellWellFormed(open: string, text: JString)
    requires '>' !in open
    ensures WellFormed(TextCellPieces(open, text))
  {
    assert '>' !in "/td";
    WellFormedThree(Markup(open), Text(EscapeHtml(text)), Markup("/td"));
  }

  lemma NoteWellFormed(note: JString)
    ensures WellFormed(NotePieces(note))
  {
    if HasNote(note) {
      assert '>' !in "br/" && '>' !in "span class='note'" && '>' !in "/span";
      assert '<' !in "(" && '<' !in ")";
      WellFormedThree(Markup("br/"), Markup("span class='note'"), Markup("/span"));
      WellFormedThree(Text("("), Text(EscapeHtml(note)), Text(")"));
      WellFormedOne(Markup("/span"));
      WellFormedAppend([Markup("br/"), Markup("span class='note'")], [Text("("), Text(EscapeHtml(note)), Text(")")]);
      WellFormedAppend([Markup("br/"), Markup("span class='note'")] + [Text("("), Text(EscapeHtml(note)), Text(")")], [Markup("/span")]);
    }
  }

  lemma DescriptionCellWellFormed(description: JString, note: JString)
    ensures WellFormed(DescriptionCellPieces(description, note))
  {
    var start := [Markup("td"), Text(EscapeHtml(description))];
    assert '>' !in "td" && '>' !in "/td";
    WellFormedThree(Markup("td"), Text(EscapeHtml(description)), Markup("/td"));
    WellFormedOne(Markup("/td"));
    NoteWellFormed(note);
    WellFormedAppend(start, NotePieces(note));
    WellFormedAppend(start + NotePieces(note), [Markup("/td")]);
  }

  lemma RowWellFormed(h: Holiday)
    requires PlainDate(h.date)
    ensures WellFormed(RowPieces(h))
  {
    var p0 := [Markup("tr")];
    var p1 := p0 + DateCellPieces(h.date);
    var p2 := p1 + BadgeCellPieces(h.isHoliday);
    var p3 := p2 + TextCellPieces("td", h.name);
    var p4 := p3 + TextCellPieces(Centered, h.holidayCategory);
    var p5 := p4 + DescriptionCellPieces(h.description, h.note);
    assert '>' !in "tr" && '>' !in "/tr" && '>' !in "td" && '>' !in Centered;
    WellFormedOne(Markup("tr"));
    WellFormedOne(Markup("/tr"));
    DateCellWellFormed(h.date);
    WellFormedAppend(p0, DateCellPieces(h.date));
    BadgeCellWellFormed(h.isHoliday);
    WellFormedAppend(p1, BadgeCellPieces(h.isHoliday));
    TextCellWellFormed("td", h.name);
    WellFormedAppend(p2, TextCellPieces("td", h.name));
    TextCellWellFormed(Centered, h.holidayCategory);
    WellFormedAppend(p3, TextCellPieces(Centered, h.holidayCategory));
    DescriptionCellWellFormed(h.description, h.note);
    WellFormedAppend(p4, DescriptionCellPieces(h.description, h.note));
    WellFormedAppend(p5, [Markup("/tr")]);
  }

  /**
   * One row, appended to a page whose tags are all closed, adds exactly the row's tags
   * and leaves every tag closed.
   */
  lemma RowStructure(sb: string, h: Holiday)
    requires Closed(sb) && PlainDate(h.date)
    ensures Tags(AppendRow(sb, h)) == Tags(sb) + RowTags(h)
    ensures Closed(AppendRow(sb, h))
  {
    RowBuild(sb, h);
    RowWellFormed(h);
    RowTagsOf(h);
    BuildTags(sb, RowPieces(h));
  }

  lemma {:induction false} RowsWellFormed(hs: seq<Holiday>)
    requires forall i :: 0 <= i < |hs| ==> PlainDate(hs[i].date)
    ensures WellFormed(RowsPieces(hs))
    decreases |hs|
  {
    if hs != [] {
      var init := hs[..|hs| - 1];
      RowsWellFormed(init);
      RowWellFormed(hs[|hs| - 1]);
      WellFormedAppend(RowsPieces(init), RowPieces(hs[|hs| - 1]));
    }
  }

  lemma {:induction false} RowsTagsOf(hs: seq<Holiday>)
    ensures TagsOf(RowsPieces(hs)) == RowsTags(hs)
    decreases |hs|
  {
    if hs != [] {
      var init := hs[..|hs| - 1];
      RowsTagsOf(init);
      RowTagsOf(hs[|hs| - 1]);
      TagsOfAppend(RowsPieces(init), RowPieces(hs[|hs| - 1]));
    }
  }

  lemma TableBodyWellFormed(hs: seq<Holiday>)
    requires forall i :: 0 <= i < |hs| ==> PlainDate(hs[i].date)
    ensures WellFormed(TableBodyPieces(hs))
  {
    var head := [Markup("tbody")];
    var rows := RowsPieces(hs);
    var tail := [Markup("/tbody"), Markup("/table")];
    assert '>' !in "tbody" && '>' !in "/tbody" && '>' !in "/table";
    WellFormedOne(Markup("tbody"));
    WellFormedThree(Markup("/tbody"), Markup("/table"), Markup("/table"));
    RowsWellFormed(hs);
    WellFormedAppend(head, rows);
    WellFormedAppend(head + rows, tail);
  }

  lemma TableBodyTagsOf(hs: seq<Holiday>)
    ensures TagsOf(TableBodyPieces(hs)) == TableBodyTags(hs)
  {
    var head := [Markup("tbody")];
    var rows := RowsPieces(hs);
    var tail := [Markup("/tbody"), Markup("/table")];
    TagsOfOne(Markup("tbody"));
    TagsOfTwo(Markup("/tbody"), Markup("/table"));
    RowsTagsOf(hs);
    TagsOfAppend(head, rows);
    TagsOfAppend(head + rows, tail);
  }

  /**
   * The table body's tags are `tbody`, each row's tags in input order, `/tbody` and
   * `/table`, and every tag it opens is closed.
   */
  lemma TableBodyStructure(sb: string, hs: seq<Holiday>)
    requires Closed(sb)
    requires forall i :: 0 <= i < |hs| ==> PlainDate(hs[i].date)
    ensures Tags(TableBody(sb, hs)) == Tags(sb) + TableBodyTags(hs)
    ensures Closed(TableBody(sb, hs))
  {
    TableBodyBuild(sb, hs);
    TableBodyWellFormed(hs);
    TableBodyTagsOf(hs);
    BuildTags(sb, TableBodyPieces(hs));
  }

  // Counting tags: one `tr` per holiday, five cells per row.

  /** How many times `t` occurs in `tags`. */
  function CountOf(tags: seq<string>, t: string): nat
    decreases |tags|
  {
    if tags == [] then 0 else (if tags[0] == t then 1 else 0) + CountOf(tags[1..], t)
  }

  /** One if `x` is `t`, else zero. */
  function Hit(x: string, t: string): nat {
    if x == t then 1 else 0
  }

  /** How many cells a tag sequence opens: plain `td` and centred ones. */
  function CellCount(tags: seq<string>): nat {
    CountOf(tags, "td") + CountOf(tags, Centered)
  }

  lemma {:induction false} CountOfAppend(a: seq<string>, b: seq<string>, t: string)
    ensures CountOf(a + b, t) == CountOf(a, t) + CountOf(b, t)
    decreases |a|
  {
    if a == [] {
      assert a + b == b;
    } else {
      CountOfAppend(a[1..], b, t);
      assert (a + b)[1..] == a[1..] + b;
    }
  }

  lemma CountOfOne(x: string, t: string)
    ensures CountOf([x], t) == Hit(x, t)
  {
    assert [x][1..] == [];
  }

  lemma CountOfTwo(x: string, y: string, t: string)
    ensures CountOf([x, y], t) == Hit(x, t) + Hit(y, t)
  {
    assert [x, y] == [x] + [y];
    CountOfAppend([x], [y], t);
    CountOfOne(x, t);
    CountOfOne(y, t);
  }

  lemma BadgeCellTagsCount(isHoliday: bool, t: string)
    ensures CountOf(BadgeCellTags(isHoliday), t) == Hit(Centered, t) + CountOf(BadgeTags(isHoliday), t) + Hit("/td", t)
  {
    CountOfOne(Centered, t);
    CountOfOne("/td", t);
    CountOfAppend([Centered], BadgeTags(isHoliday), t);
    CountOfAppend([Centered] + BadgeTags(isHoliday), ["/td"], t);
  }

  lemma DescriptionCellTagsCount(note: JString, t: string)
    ensures CountOf(DescriptionCellTags(note), t) == Hit("td", t) + CountOf(NoteTags(note), t) + Hit("/td", t)
  {
    CountOfOne("td", t);
    CountOfOne("/td", t);
    CountOfAppend(["td"], NoteTags(note), t);
    CountOfAppend(["td"] + NoteTags(note), ["/td"], t);
  }

  /** A row's count of any tag: its own tags, the badge's and the note's. */
  lemma RowTagsCount(h: Holiday, t: string)
    ensures CountOf(RowTags(h), t)
      == Hit("tr", t) + 3 * Hit(Centered, t) + 2 * Hit("td", t) + 5 * Hit("/td", t) + Hit("/tr", t)
         + CountOf(BadgeTags(h.isHoliday), t) + CountOf(NoteTags(h.note), t)
  {
    var t0 := ["tr"];
    var t1 := t0 + CellTags(Centered);
    var t2 := t1 + BadgeCellTags(h.isHoliday);
    var t3 := t2 + CellTags("td");
    var t4 := t3 + CellTags(Centered);
    var t5 := t4 + DescriptionCellTags(h.note);
    CountOfOne("tr", t);
    CountOfOne("/tr", t);
    CountOfTwo(Centered, "/td", t);
    CountOfTwo("td", "/td", t);
    BadgeCellTagsCount(h.isHoliday, t);
    DescriptionCellTagsCount(h.note, t);
    CountOfAppend(t0, CellTags(Centered), t);
    CountOfAppend(t1, BadgeCellTags(h.isHoliday), t);
    CountOfAppend(t2, CellTags("td"), t);
    CountOfAppend(t3, CellTags(Centered), t);
    CountOfAppend(t4, DescriptionCellTags(h.note), t);
    CountOfAppend(t5, ["/tr"], t);
  }

  /** The badge and the note hold no row or cell tag. */
  lemma BadgeAndNoteHoldNoCells(h: Holiday, t: string)
    requires t in {"tr", "/tr", "td", Centered, "/td"}
    ensures CountOf(BadgeTags(h.isHoliday), t) == 0 && CountOf(NoteTags(h.note), t) == 0
  {
    var open := BadgeOpen(h.isHoliday);
    assert open[..4] == "span" && |open| > |Centered|;
    CountOfTwo(open, "/span", t);
    if HasNote(h.note) {
      CountOfOne("br/", t);
      CountOfTwo("span class='note'", "/span", t);
      CountOfAppend(["br/"], ["span class='note'", "/span"], t);
      assert NoteTags(h.note) == ["br/"] + ["span class='note'", "/span"];
    }
  }

  /** Each row opens and closes one `tr` and holds exactly five cells, each closed by `/td`. */
  lemma RowHasFiveCells(h: Holiday)
    ensures CountOf(RowTags(h), "tr") == 1 && CountOf(RowTags(h), "/tr") == 1
    ensures CellCount(RowTags(h)) == 5 && CountOf(RowTags(h), "/td") == 5
    ensures RowTags(h)[0] == "tr" && RowTags(h)[|RowTags(h)| - 1] == "/tr"
  {
    RowTagsCount(h, "tr");
    BadgeAndNoteHoldNoCells(h, "tr");
    RowTagsCount(h, "/tr");
    BadgeAndNoteHoldNoCells(h, "/tr");
    RowTagsCount(h, "td");
    BadgeAndNoteHoldNoCells(h, "td");
    RowTagsCount(h, Centered);
    BadgeAndNoteHoldNoCells(h, Centered);
    RowTagsCount(h, "/td");
    BadgeAndNoteHoldNoCells(h, "/td");
  }

  /** The rows open and close one `tr` per holiday and hold five cells per holiday. */
  lemma {:induction false} RowsHaveOneRowPerHoliday(hs: seq<Holiday>)
    ensures CountOf(RowsTags(hs), "tr") == |hs| && CountOf(RowsTags(hs), "/tr") == |hs|
    ensures CellCount(RowsTags(hs)) == 5 * |hs| && CountOf(RowsTags(hs), "/td") == 5 * |hs|
    decreases |hs|
  {
    if hs != [] {
      var init := hs[..|hs| - 1];
      var last := hs[|hs| - 1];
      RowsHaveOneRowPerHoliday(init);
      RowHasFiveCells(last);
      CountOfAppend(RowsTags(init), RowTags(last), "tr");
      CountOfAppend(RowsTags(init), RowTags(last), "/tr");
      CountOfAppend(RowsTags(init), RowTags(last), "td");
      CountOfAppend(RowsTags(init), RowTags(last), Centered);
      CountOfAppend(RowsTags(init), RowTags(last), "/td");
    }
  }

  /** The table body's count of a tag other than its own three is that of its rows. */
  lemma TableBodyTagsCount(hs: seq<Holiday>, t: string)
    requires t in {"tr", "/tr", "td", Centered, "/td"}
    ensures CountOf(TableBodyTags(hs), t) == CountOf(RowsTags(hs), t)
  {
    CountOfOne("tbody", t);
    CountOfTwo("/tbody", "/table", t);
    CountOfAppend(["tbody"], RowsTags(hs), t);
    CountOfAppend(["tbody"] + RowsTags(hs), ["/tbody", "/table"], t);
  }

  /** The table body holds one `tr` and one `/tr` per holiday and five cells per holiday. */
  lemma TableHasOneRowPerHoliday(hs: seq<Holiday>)
    ensures CountOf(TableBodyTags(hs), "tr") == |hs| && CountOf(TableBodyTags(hs), "/tr") == |hs|
    ensures CellCount(TableBodyTags(hs)) == 5 * |hs| && CountOf(TableBodyTags(hs), "/td") == 5 * |hs|
  {
    RowsHaveOneRowPerHoliday(hs);
    TableBodyTagsCount(hs, "tr");
    TableBodyTagsCount(hs, "/tr");
    TableBodyTagsCount(hs, "td");
    TableBodyTagsCount(hs, Centered);
    TableBodyTagsCount(hs, "/td");
  }
}
