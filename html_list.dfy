/**
 * The numbered test list `PdfService.generateHtmlWithAlternativeList` appends after the
 * holiday table: an `ol` of class `chinese-safe` holding twelve items, the i-th of which
 * names its own number i.
 */
module HtmlList {
  import opened JavaText
  import opened HtmlTags

  const ListOpen := "ol class='chinese-safe'"

  /** The text before and after each item's number. */
  const ItemLead := "這是第 "
  const ItemTail := TailClause1 + TailClause2 + TailClause3

  /** The tail's three clauses, written apart so that each can be read on its own. */
  const TailClause1 := " 點說明事項，測試長度與對齊效果。"
  const TailClause2 := "若文字較長會自動折行，"
  const TailClause3 := "第二行應對齊文字起始處，不會跑版到編號下方。"

  /** The loop runs its counter from 1 to 12 inclusive. */
  const ItemCount := 12

  /** The text of item i: the number is appended as a decimal `int`. */
  function ItemText(i: nat): string {
    ItemLead + DecimalString(i) + ItemTail
  }

  function AppendItem(sb: string, i: nat): string {
    sb + Tag("li") + ItemText(i) + Tag("/li")
  }

  /** Items 1 to n, in that order. */
  function AppendItems(sb: string, n: nat): string
    decreases n
  {
    if n == 0 then sb else AppendItem(AppendItems(sb, n - 1), n)
  }

  /** The list with items 1 to n; the source's has `ItemCount` of them. */
  function NumberedList(sb: string, n: nat): string {
    AppendItems(sb + Tag(ListOpen), n) + Tag("/ol")
  }

  /** The source's loop: opens the list, appends items 1 to 12, closes the list. */
  method AppendNumberedList(sb: string) returns (html: string)
    ensures html == NumberedList(sb, ItemCount)
  {
    html := sb + Tag(ListOpen);
    var i := 1;
    while i <= ItemCount
      invariant 1 <= i <= ItemCount + 1
      invariant html == AppendItems(sb + Tag(ListOpen), i - 1)
    {
      html := html + Tag("li") + ItemLead + DecimalString(i) + ItemTail + Tag("/li");
      i := i + 1;
    }
    html := html + Tag("/ol");
  }

  /** Item i shows the lead text, then the number i written in decimal, then the tail. */
  lemma ItemShowsItsNumber(i: nat)
    ensures ItemText(i)[..|ItemLead|] == ItemLead
    ensures ItemText(i)[|ItemText(i)| - |ItemTail|..] == ItemTail
    ensures var digits := ItemText(i)[|ItemLead|..|ItemText(i)| - |ItemTail|];
      digits == DecimalString(i) && DecimalValue(digits) == i
  {
    var d := DecimalString(i);
    assert ItemText(i)[|ItemLead|..|ItemText(i)| - |ItemTail|] == d;
    DecimalRoundTrip(i);
  }

  // The list as a sequence of pieces.

  function ItemPieces(i: nat): seq<Piece> {
    [Markup("li"), Text(ItemText(i)), Markup("/li")]
  }

  function ItemsPieces(n: nat): seq<Piece>
    decreases n
  {
    if n == 0 then [] else ItemsPieces(n - 1) + ItemPieces(n)
  }

  function ListPieces(n: nat): seq<Piece> {
    [Markup(ListOpen)] + ItemsPieces(n) + [Markup("/ol")]
  }

  /** The tags of n items: `li` and `/li`, n times. */
  function ItemTags(n: nat): seq<string>
    decreases n
  {
    if n == 0 then [] else ItemTags(n - 1) + ["li", "/li"]
  }

  /** The tags of the whole list. */
  function ListTags(n: nat): seq<string> {
    [ListOpen] + ItemTags(n) + ["/ol"]
  }

  lemma {:induction false} ItemTagsShape(n: nat)
    ensures |ItemTags(n)| == 2 * n
    ensures forall k :: 0 <= k < n ==> ItemTags(n)[2 * k] == "li" && ItemTags(n)[2 * k + 1] == "/li"
    decreases n
  {
    if n > 0 {
      ItemTagsShape(n - 1);
      assert ItemTags(n) == ItemTags(n - 1) + ["li", "/li"];
    }
  }

  lemma {:induction false} ItemsBuild(sb: string, n: nat)
    ensures Build(sb, ItemsPieces(n)) == AppendItems(sb, n)
    decreases n
  {
    if n > 0 {
      ItemsBuild(sb, n - 1);
      BuildAppend(sb, ItemsPieces(n - 1), ItemPieces(n));
      BuildThree(AppendItems(sb, n - 1), Markup("li"), Text(ItemText(n)), Markup("/li"));
    }
  }

  lemma ItemPiecesTags(text: string)
    ensures TagsOf([Markup("li"), Text(text), Markup("/li")]) == ["li", "/li"]
  {
    BuildThree("", Markup("li"), Text(text), Markup("/li"));
  }

  lemma {:induction false} ItemsTagsOf(n: nat)
    ensures TagsOf(ItemsPieces(n)) == ItemTags(n)
    decreases n
  {
    if n > 0 {
      ItemsTagsOf(n - 1);
      TagsOfAppend(ItemsPieces(n - 1), ItemPieces(n));
      ItemPiecesTags(ItemText(n));
    }
  }

  lemma LeadAndTailArePlain()
    ensures '<' !in ItemLead && '<' !in ItemTail
  {
    assert '<' !in TailClause1;
    assert '<' !in TailClause2;
    assert '<' !in TailClause3;
    forall k | 0 <= k < |ItemTail| ensures ItemTail[k] != '<' {
      if k < |TailClause1| {
        assert ItemTail[k] == TailClause1[k];
      } else if k < |TailClause1| + |TailClause2| {
        assert ItemTail[k] == TailClause2[k - |TailClause1|];
      } else {
        assert ItemTail[k] == TailClause3[k - |TailClause1| - |TailClause2|];
      }
    }
  }

  lemma ItemTextIsPlain(i: nat)
    ensures '<' !in ItemText(i)
  {
    var text := ItemText(i);
    var d := DecimalString(i);
    LeadAndTailArePlain();
    forall k | 0 <= k < |text| ensures text[k] != '<' {
      if k < |ItemLead| {
        assert text[k] == ItemLead[k];
      } else if k < |ItemLead| + |d| {
        assert text[k] == d[k - |ItemLead|];
      } else {
        assert text[k] == ItemTail[k - |ItemLead| - |d|];
      }
    }
  }

  lemma {:induction false} ItemsWellFormed(n: nat)
    ensures WellFormed(ItemsPieces(n))
    decreases n
  {
    if n > 0 {
      ItemsWellFormed(n - 1);
      ItemTextIsPlain(n);
      assert '>' !in "li" && '>' !in "/li";
      WellFormedThree(Markup("li"), Text(ItemText(n)), Markup("/li"));
      WellFormedAppend(ItemsPieces(n - 1), ItemPieces(n));
    }
  }

  lemma ListBuild(sb: string, n: nat)
    ensures Build(sb, ListPieces(n)) == NumberedList(sb, n)
  {
    var head := [Markup(ListOpen)];
    var items := ItemsPieces(n);
    BuildOne(sb, Markup(ListOpen));
    BuildAppend(sb, head, items);
    ItemsBuild(sb + Tag(ListOpen), n);
    BuildSnoc(sb, head + items, Markup("/ol"));
  }

  lemma ListWellFormed(n: nat)
    ensures WellFormed(ListPieces(n))
  {
    var head := [Markup(ListOpen)];
    var items := ItemsPieces(n);
    assert '>' !in ListOpen && '>' !in "/ol";
    WellFormedOne(Markup(ListOpen));
    WellFormedOne(Markup("/ol"));
    ItemsWellFormed(n);
    WellFormedAppend(head, items);
    WellFormedAppend(head + items, [Markup("/ol")]);
  }

  lemma ListTagsOf(n: nat)
    ensures TagsOf(ListPieces(n)) == ListTags(n)
  {
    var head := [Markup(ListOpen)];
    var items := ItemsPieces(n);
    TagsOfOne(Markup(ListOpen));
    TagsOfOne(Markup("/ol"));
    ItemsTagsOf(n);
    TagsOfAppend(head, items);
    TagsOfAppend(head + items, [Markup("/ol")]);
  }

  /**
   * Appended to a page whose tags are all closed, a list of n items adds `ol`, n
   * `li`/`/li` pairs and `/ol`, and leaves every tag closed.
   */
  lemma ListStructure(sb: string, n: nat)
    requires Closed(sb)
    ensures Tags(NumberedList(sb, n)) == Tags(sb) + ListTags(n)
    ensures Closed(NumberedList(sb, n))
    ensures |ListTags(n)| == 2 * n + 2
  {
    ListBuild(sb, n);
    ListWellFormed(n);
    ListTagsOf(n);
    BuildTags(sb, ListPieces(n));
    ItemTagsShape(n);
  }
}
