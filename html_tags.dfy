/**
 * A reading of generated HTML as its sequence of tags: the text between each "<" and the
 * next ">".  Used to state the structure of the table `PdfService` emits.
 */
module HtmlTags {

  /** Position of the first `c` in `s`, or `|s|` when there is none. */
  function IndexOfChar(s: string, c: char): (n: nat)
    ensures n <= |s|
    ensures n < |s| ==> s[n] == c
    decreases |s|
  {
    if s == [] then 0 else if s[0] == c then 0 else 1 + IndexOfChar(s[1..], c)
  }

  /** No `c` comes before the position `IndexOfChar` finds. */
  lemma {:induction false} BeforeIndexOfChar(s: string, c: char, i: nat)
    requires i < IndexOfChar(s, c)
    ensures s[i] != c
    decreases |s|
  {
    if i > 0 {
      BeforeIndexOfChar(s[1..], c, i - 1);
    }
  }

  /** The tags of `s`, in order; text outside tags is skipped. */
  function Tags(s: string): seq<string>
    decreases |s|
  {
    if s == [] then []
    else if s[0] == '<' then
      var n := IndexOfChar(s[1..], '>');
      if n < |s| - 1 then [s[1..n + 1]] + Tags(s[n + 2..]) else [s[1..]]
    else Tags(s[1..])
  }

  /** Every "<" of `s` is closed by a later ">". */
  predicate Closed(s: string)
    decreases |s|
  {
    if s == [] then true
    else if s[0] == '<' then
      var n := IndexOfChar(s[1..], '>');
      n < |s| - 1 && Closed(s[n + 2..])
    else Closed(s[1..])
  }

  /** The first `c` of `a + b` is the first `c` of `a` when `a` has one. */
  lemma IndexOfCharAppend(a: string, b: string, c: char)
    requires IndexOfChar(a, c) < |a|
    ensures IndexOfChar(a + b, c) == IndexOfChar(a, c)
  {
    var n, m := IndexOfChar(a, c), IndexOfChar(a + b, c);
    assert (a + b)[n] == c;
    if n < m {
      BeforeIndexOfChar(a + b, c, n);
    } else if m < n {
      assert (a + b)[m] == a[m];
      BeforeIndexOfChar(a, c, m);
    }
  }

  /** Tags of a concatenation whose left part is closed. */
  lemma {:induction false} TagsAppend(a: string, b: string)
    requires Closed(a)
    ensures Tags(a + b) == Tags(a) + Tags(b)
    ensures Closed(a + b) == Closed(b)
    decreases |a|
  {
    var s := a + b;
    if a == [] {
      assert s == b;
    } else if a[0] == '<' {
      var n := IndexOfChar(a[1..], '>');
      assert s[1..] == a[1..] + b;
      IndexOfCharAppend(a[1..], b, '>');
      assert s[1..n + 1] == a[1..n + 1];
      assert s[n + 2..] == a[n + 2..] + b;
      TagsAppend(a[n + 2..], b);
      assert Tags(s) == [a[1..n + 1]] + Tags(a[n + 2..] + b);
      assert Tags(a) == [a[1..n + 1]] + Tags(a[n + 2..]);
      assert Closed(s) == Closed(a[n + 2..] + b);
    } else {
      assert s[1..] == a[1..] + b;
      assert Closed(a[1..]);
      TagsAppend(a[1..], b);
      assert Tags(s) == Tags(a[1..] + b) && Closed(s) == Closed(a[1..] + b);
    }
  }

  /** Text without "<" holds no tag. */
  lemma {:induction false} PlainText(s: string)
    requires '<' !in s
    ensures Tags(s) == [] && Closed(s)
    decreases |s|
  {
    if s != [] {
      assert '<' !in s[1..];
      PlainText(s[1..]);
    }
  }

  /** The markup of one tag named by its inside text, such as `Tag("/td") == "</td>"`. */
  function Tag(t: string): string {
    "<" + t + ">"
  }

  /** A single tag. */
  lemma OneTag(t: string)
    requires '>' !in t
    ensures Tags(Tag(t)) == [t] && Closed(Tag(t))
  {
    var s := Tag(t);
    assert s[1..] == t + ">";
    IndexOfCharAppendMiss(t, ">", '>');
    assert s[1..|t| + 1] == t;
    assert s[|t| + 2..] == [];
  }

  /** The first `c` of `a + b` when `a` has none. */
  lemma IndexOfCharAppendMiss(a: string, b: string, c: char)
    requires c !in a
    ensures IndexOfChar(a + b, c) == |a| + IndexOfChar(b, c)
    decreases |a|
  {
    if a != [] {
      assert (a + b)[1..] == a[1..] + b;
      assert c !in a[1..];
      IndexOfCharAppendMiss(a[1..], b, c);
    } else {
      assert a + b == b;
    }
  }

  /** Appending one tag to closed text adds that tag and keeps the text closed. */
  lemma AddTag(sb: string, t: string)
    requires Closed(sb) && '>' !in t
    ensures Tags(sb + Tag(t)) == Tags(sb) + [t] && Closed(sb + Tag(t))
  {
    OneTag(t);
    TagsAppend(sb, Tag(t));
  }

  /** Appending text without "<" to closed text adds no tag. */
  lemma AddText(sb: string, x: string)
    requires Closed(sb) && '<' !in x
    ensures Tags(sb + x) == Tags(sb) && Closed(sb + x)
  {
    PlainText(x);
    TagsAppend(sb, x);
    assert Tags(sb) + [] == Tags(sb);
  }

  /** A fragment appended to the page: one tag (its inside text) or plain text. */
  datatype Piece = Markup(name: string) | Text(text: string)

  function PieceText(p: Piece): string {
    match p
    case Markup(name) => Tag(name)
    case Text(text) => text
  }

  /** The page text after appending `ps`, in order, to `sb`. */
  function Build(sb: string, ps: seq<Piece>): string
    decreases |ps|
  {
    if ps == [] then sb else Build(sb, ps[..|ps| - 1]) + PieceText(ps[|ps| - 1])
  }

  /** The tag name a piece contributes: one for markup, none for text. */
  function TagOf(p: Piece): seq<string> {
    if p.Markup? then [p.name] else []
  }

  /** The tag names among `ps`, in order. */
  function TagsOf(ps: seq<Piece>): seq<string>
    decreases |ps|
  {
    if ps == [] then []
    else TagsOf(ps[..|ps| - 1]) + TagOf(ps[|ps| - 1])
  }

  /** A tag name holds no ">" and a text holds no "<": the piece reads back as written. */
  predicate PieceOk(p: Piece) {
    if p.Markup? then '>' !in p.name else '<' !in p.text
  }

  predicate WellFormed(ps: seq<Piece>) {
    forall i :: 0 <= i < |ps| ==> PieceOk(ps[i])
  }

  lemma {:induction false} BuildAppend(sb: string, ps: seq<Piece>, qs: seq<Piece>)
    ensures Build(sb, ps + qs) == Build(Build(sb, ps), qs)
    decreases |qs|
  {
    if qs == [] {
      assert ps + qs == ps;
    } else {
      var init := qs[..|qs| - 1];
      assert (ps + qs)[..|ps + qs| - 1] == ps + init;
      BuildAppend(sb, ps, init);
    }
  }

  lemma {:induction false} TagsOfAppend(ps: seq<Piece>, qs: seq<Piece>)
    ensures TagsOf(ps + qs) == TagsOf(ps) + TagsOf(qs)
    decreases |qs|
  {
    if qs == [] {
      assert ps + qs == ps;
    } else {
      var init := qs[..|qs| - 1];
      assert (ps + qs)[..|ps + qs| - 1] == ps + init;
      TagsOfAppend(ps, init);
    }
  }

  lemma WellFormedAppend(ps: seq<Piece>, qs: seq<Piece>)
    requires WellFormed(ps) && WellFormed(qs)
    ensures WellFormed(ps + qs)
  {
    forall i | 0 <= i < |ps + qs|
      ensures PieceOk((ps + qs)[i])
    {
      if i >= |ps| {
        assert (ps + qs)[i] == qs[i - |ps|];
      }
    }
  }

  /**
   * Appending well-formed pieces to closed text adds exactly their tags: text that holds
   * no "<" can never open a tag.
   */
  lemma {:induction false} BuildTags(sb: string, ps: seq<Piece>)
    requires Closed(sb) && WellFormed(ps)
    ensures Tags(Build(sb, ps)) == Tags(sb) + TagsOf(ps) && Closed(Build(sb, ps))
    decreases |ps|
  {
    if ps == [] {
      assert Tags(sb) + [] == Tags(sb);
    } else {
      var init, last := ps[..|ps| - 1], ps[|ps| - 1];
      assert WellFormed(init) by {
        forall i | 0 <= i < |init| ensures PieceOk(init[i]) {
          assert init[i] == ps[i];
        }
      }
      BuildTags(sb, init);
      if last.Markup? {
        AddTag(Build(sb, init), last.name);
      } else {
        AddText(Build(sb, init), last.text);
      }
    }
  }

  lemma BuildSnoc(sb: string, ps: seq<Piece>, p: Piece)
    ensures Build(sb, ps + [p]) == Build(sb, ps) + PieceText(p)
  {
    assert (ps + [p])[..|ps|] == ps;
  }

  lemma TagsOfSnoc(ps: seq<Piece>, p: Piece)
    ensures TagsOf(ps + [p]) == TagsOf(ps) + TagOf(p)
  {
    assert (ps + [p])[..|ps|] == ps;
  }

  lemma TagsOfOne(p: Piece)
    ensures TagsOf([p]) == TagOf(p)
  {
    assert [p][..0] == [];
  }

  lemma TagsOfTwo(a: Piece, b: Piece)
    ensures TagsOf([a, b]) == TagOf(a) + TagOf(b)
  {
    assert [a, b][..1] == [a];
    TagsOfOne(a);
  }

  lemma BuildOne(sb: string, p: Piece)
    ensures Build(sb, [p]) == sb + PieceText(p)
  {
    assert [p][..0] == [];
  }

  lemma BuildTwo(sb: string, a: Piece, b: Piece)
    ensures Build(sb, [a, b]) == sb + PieceText(a) + PieceText(b)
  {
    assert [a, b][..1] == [a];
    BuildOne(sb, a);
  }

  /** Three pieces: what a table cell is made of. */
  lemma BuildThree(sb: string, a: Piece, b: Piece, c: Piece)
    ensures Build(sb, [a, b, c]) == sb + PieceText(a) + PieceText(b) + PieceText(c)
    ensures TagsOf([a, b, c]) == TagOf(a) + TagOf(b) + TagOf(c)
  {
    assert [a, b, c][..2] == [a, b];
    BuildTwo(sb, a, b);
    TagsOfTwo(a, b);
  }

  lemma WellFormedOne(a: Piece)
    requires PieceOk(a)
    ensures WellFormed([a])
  {
  }

  lemma WellFormedThree(a: Piece, b: Piece, c: Piece)
    requires PieceOk(a) && PieceOk(b) && PieceOk(c)
    ensures WellFormed([a]) && WellFormed([a, b]) && WellFormed([a, b, c])
  {
  }
}
