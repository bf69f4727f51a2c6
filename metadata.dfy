/**
 * The book identifier taken from the page's structured data:
 * `mainEntityOfPage.split('_')[-1].rstrip('/')`. The identifier names the
 * e-book and the cache directory.
 */
module Metadata {
  import opened Text

  /** Where the last `sep`-separated field of `s` starts: just after the last
      `sep`, or 0 when `s` has none. `s.split(sep)[-1]` is `s[LastFieldStart(s, sep)..]`. */
  function LastFieldStart(s: string, sep: char): (k: nat)
    ensures k <= |s|
    ensures sep !in s[k..]
    ensures k == 0 || s[k - 1] == sep
  {
    if s == [] then 0
    else if s[|s| - 1] == sep then |s|
    else
      var k := LastFieldStart(s[..|s| - 1], sep);
      assert s[k..] == s[..|s| - 1][k..] + [s[|s| - 1]];
      k
  }

  /** The book ID: the text after the last '_' of the page's address, with all
      trailing '/' removed. */
  function BookId(mainEntityOfPage: string): (id: string)
    ensures '_' !in id
    ensures id == [] || id[|id| - 1] != '/'
    ensures var k := LastFieldStart(mainEntityOfPage, '_');
            && k + |id| <= |mainEntityOfPage|
            && id == mainEntityOfPage[k..k + |id|]
            && forall i :: k + |id| <= i < |mainEntityOfPage| ==> mainEntityOfPage[i] == '/'
  {
    var k := LastFieldStart(mainEntityOfPage, '_');
    var id := RStrip(mainEntityOfPage[k..], IsSlash);
    assert forall c :: c in id ==> c in mainEntityOfPage[k..];
    id
  }

  /** An address with no '_' yields the whole address, trailing '/' removed. */
  lemma {:induction false} NoUnderscoreWholeString(s: string)
    requires '_' !in s
    ensures LastFieldStart(s, '_') == 0
  {
    if s != [] && s[|s| - 1] != '_' {
      assert '_' !in s[..|s| - 1];
      NoUnderscoreWholeString(s[..|s| - 1]);
    }
  }

  /** Text after the last '_' wins, whatever precedes it. */
  lemma {:induction false} LastFieldAfterSeparator(prefix: string, field: string)
    requires '_' !in field
    ensures LastFieldStart(prefix + "_" + field, '_') == |prefix| + 1
  {
    var s := prefix + "_" + field;
    if field != [] {
      assert s[..|s| - 1] == prefix + "_" + field[..|field| - 1];
      assert '_' !in field[..|field| - 1];
      LastFieldAfterSeparator(prefix, field[..|field| - 1]);
    }
  }
}
