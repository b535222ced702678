/**
 * The few `java.lang.String` and `StringBuilder` operations the services rely on,
 * stated on Dafny strings (sequences of characters).
 */
module JavaText {
  import opened Base

  /**
   * `String.replace(CharSequence target, CharSequence replacement)`: the string is scanned
   * from the left and every occurrence of `target` that does not overlap an earlier
   * replaced one is replaced.  Every call site in the services passes a non-empty literal.
   */
  function Replace(s: string, target: string, replacement: string): string
    requires |target| > 0
    decreases |s|
  {
    if |s| < |target| then s
    else if s[..|target|] == target then replacement + Replace(s[|target|..], target, replacement)
    else [s[0]] + Replace(s[1..], target, replacement)
  }

  /** Replacing a single character distributes over concatenation. */
  lemma {:induction false} ReplaceCharAppend(a: string, b: string, c: char, replacement: string)
    ensures Replace(a + b, [c], replacement) == Replace(a, [c], replacement) + Replace(b, [c], replacement)
    decreases |a|
  {
    if a == [] {
      assert a + b == b;
    } else {
      assert (a + b)[..1] == a[..1];
      assert (a + b)[1..] == a[1..] + b;
      ReplaceCharAppend(a[1..], b, c, replacement);
    }
  }

  /** Replacing a single character in a one-character string. */
  lemma ReplaceCharSingle(c: char, target: char, replacement: string)
    ensures Replace([c], [target], replacement) == if c == target then replacement else [c]
  {
    assert [c][..1] == [c] && [c][1..] == [];
  }

  /** Replacing a single character leaves a string without that character unchanged. */
  lemma {:induction false} ReplaceCharAbsent(s: string, c: char, replacement: string)
    requires c !in s
    ensures Replace(s, [c], replacement) == s
    decreases |s|
  {
    if s != [] {
      assert s[..1] == [s[0]] && s[0] != c;
      assert c !in s[1..];
      ReplaceCharAbsent(s[1..], c, replacement);
    }
  }

  /**
   * After replacing every `c` by a string that does not contain `c`, no `c` is left,
   * and every other character occurs just as often as before plus its occurrences
   * in the inserted replacements.
   */
  lemma {:induction false} ReplaceCharRemoves(s: string, c: char, replacement: string)
    requires c !in replacement
    ensures c !in Replace(s, [c], replacement)
    decreases |s|
  {
    if s != [] {
      assert s == [s[0]] + s[1..];
      ReplaceCharAppend([s[0]], s[1..], c, replacement);
      ReplaceCharRemoves(s[1..], c, replacement);
      assert [s[0]][..1] == [s[0]];
      if s[0] != c {
        assert [s[0]][1..] == [];
      }
    }
  }

  /** The decimal digit for `d`. */
  function Digit(d: nat): (c: char)
    requires d < 10
    ensures '0' <= c <= '9'
  {
    "0123456789"[d]
  }

  predicate IsDigit(c: char) {
    '0' <= c <= '9'
  }

  /** `StringBuilder.append(int)` for a non-negative value: its decimal form, no leading zeros. */
  function DecimalString(n: nat): (r: string)
    ensures |r| > 0
    ensures forall i :: 0 <= i < |r| ==> IsDigit(r[i])
    ensures |r| > 1 ==> r[0] != '0'
    decreases n
  {
    if n < 10 then [Digit(n)] else DecimalString(n / 10) + [Digit(n % 10)]
  }

  /** Reads a string of decimal digits back as a number. */
  function DecimalValue(s: string): nat
    requires forall i :: 0 <= i < |s| ==> IsDigit(s[i])
    decreases |s|
  {
    if s == [] then 0
    else
      assert IsDigit(s[|s| - 1]);
      10 * DecimalValue(s[..|s| - 1]) + (s[|s| - 1] as int - '0' as int)
  }

  /** The decimal form determines the number: `DecimalValue` inverts `DecimalString`. */
  lemma {:induction false} DecimalRoundTrip(n: nat)
    ensures DecimalValue(DecimalString(n)) == n
    decreases n
  {
    var r := DecimalString(n);
    if n < 10 {
      assert r[..|r| - 1] == [];
    } else {
      DecimalRoundTrip(n / 10);
      assert r[..|r| - 1] == DecimalString(n / 10);
    }
  }

  /** `StringBuilder.append(String)`: a null reference is appended as the text "null". */
  function AppendText(s: JString): string
  {
    match s
    case None => "null"
    case Some(t) => t
  }

  /** `String.endsWith`. */
  predicate EndsWith(s: string, suffix: string) {
    |suffix| <= |s| && s[|s| - |suffix|..] == suffix
  }
}
