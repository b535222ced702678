/**
 * The text written by `FetchDataService.writeJsonWithLf`: the serialised JSON with
 * `replace("\r\n", "\n")` then `replace("\r", "\n")` applied, followed by a "\n" when the
 * result does not already end with one.
 */
module LineEndings {
  import opened JavaText

  /** The two chained `String.replace` calls. */
  function NormalizeLf(json: string): string {
    Replace(Replace(json, "\r\n", "\n"), "\r", "\n")
  }

  /**
   * Reference definition in one left-to-right pass: "\r\n" becomes "\n", a lone "\r"
   * becomes "\n", any other character is kept.
   */
  function NormalizeOnePass(s: string): (r: string)
    ensures '\r' !in r
    decreases |s|
  {
    if s == [] then []
    else if s[0] == '\r' then
      "\n" + NormalizeOnePass(if |s| > 1 && s[1] == '\n' then s[2..] else s[1..])
    else [s[0]] + NormalizeOnePass(s[1..])
  }

  /** The chain of two replacements is the one-pass normalisation. */
  lemma {:induction false} NormalizeLfIsOnePass(s: string)
    ensures NormalizeLf(s) == NormalizeOnePass(s)
    decreases |s|
  {
    var crlf, cr, lf := "\r\n", "\r", "\n";
    if s == [] {
    } else if |s| > 1 && s[..2] == crlf {
      NormalizeLfIsOnePass(s[2..]);
      assert s[0] == '\r' && s[1] == '\n';
      assert Replace(s, crlf, lf) == lf + Replace(s[2..], crlf, lf);
      ReplaceCharAppend(lf, Replace(s[2..], crlf, lf), '\r', lf);
      ReplaceCharAbsent(lf, '\r', lf);
    } else {
      assert Replace(s, crlf, lf) == [s[0]] + Replace(s[1..], crlf, lf) by {
        if |s| > 1 { assert s[..2] != crlf; }
      }
      ReplaceCharAppend([s[0]], Replace(s[1..], crlf, lf), '\r', lf);
      NormalizeLfIsOnePass(s[1..]);
      assert [s[0]][..1] == [s[0]] && [s[0]][1..] == [];
      if s[0] == '\r' {
        assert !(|s| > 1 && s[1] == '\n') by {
          if |s| > 1 { assert s[..2] == [s[0], s[1]]; }
        }
      }
    }
  }

  /** Text that already has no "\r" is left as it is. */
  lemma {:induction false} NormalizeKeepsLfText(s: string)
    requires '\r' !in s
    ensures NormalizeOnePass(s) == s
    decreases |s|
  {
    if s != [] {
      assert '\r' !in s[1..];
      NormalizeKeepsLfText(s[1..]);
      assert s == [s[0]] + s[1..];
    }
  }

  /** Normalising twice is normalising once. */
  lemma NormalizeIdempotent(s: string)
    ensures NormalizeLf(NormalizeLf(s)) == NormalizeLf(s)
  {
    NormalizeLfIsOnePass(s);
    NormalizeLfIsOnePass(NormalizeLf(s));
    NormalizeKeepsLfText(NormalizeOnePass(s));
  }

  /** The characters other than "\r" and "\n", in order. */
  function LineContent(s: string): string
    decreases |s|
  {
    if s == [] then []
    else (if s[0] == '\r' || s[0] == '\n' then [] else [s[0]]) + LineContent(s[1..])
  }

  /** Every character other than a line break survives, unchanged and in order. */
  lemma {:induction false} NormalizeKeepsContent(s: string)
    ensures LineContent(NormalizeOnePass(s)) == LineContent(s)
    decreases |s|
  {
    if s != [] {
      var r := NormalizeOnePass(s);
      if s[0] == '\r' {
        var rest := if |s| > 1 && s[1] == '\n' then s[2..] else s[1..];
        NormalizeKeepsContent(rest);
        assert r[0] == '\n' && r[1..] == NormalizeOnePass(rest);
        if |s| > 1 && s[1] == '\n' {
          assert s[1..][1..] == s[2..];
        }
      } else {
        NormalizeKeepsContent(s[1..]);
        assert r[0] == s[0] && r[1..] == NormalizeOnePass(s[1..]);
      }
    }
  }

  /** Whether the text ends with a line feed (`String.endsWith("\n")`). */
  predicate EndsWithLf(s: string) {
    EndsWith(s, "\n")
  }

  /**
   * The text `writeJsonWithLf` writes for serialised JSON `json`: no "\r" anywhere, a
   * final "\n", and the normalised text itself when that already ends with "\n".
   */
  function WrittenText(json: string): (r: string)
    ensures '\r' !in r
    ensures |r| > 0 && r[|r| - 1] == '\n'
    ensures EndsWithLf(NormalizeLf(json)) ==> r == NormalizeLf(json)
    ensures !EndsWithLf(NormalizeLf(json)) ==> r == NormalizeLf(json) + "\n"
  {
    NormalizeLfIsOnePass(json);
    var text := NormalizeLf(json);
    if EndsWithLf(text) then text else text + "\n"
  }

  /** Text already in written form (no "\r", final "\n") is written as it is. */
  lemma WrittenTextFixesNormalText(s: string)
    requires '\r' !in s
    requires |s| > 0 && s[|s| - 1] == '\n'
    ensures WrittenText(s) == s
  {
    NormalizeLfIsOnePass(s);
    NormalizeKeepsLfText(s);
    assert s[|s| - 1..] == "\n";
  }
}
