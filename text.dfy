/**
 * Character and string helpers that the script borrows from Python's `str`:
 * whitespace, `encode('ascii', 'ignore')`, `strip`/`rstrip`, single-character
 * `replace`, and the decimal rendering of an `int` inside an f-string.
 * Strings are sequences of characters.
 */
module Text {

  /** Python's `str.isspace()` on the ASCII range: tab, line feed, vertical tab,
      form feed, carriage return, the four separators 0x1C-0x1F, and space. */
  predicate IsSpace(c: char): (b: bool)
    ensures b <==> c in " \t\n\U{000B}\U{000C}\r\U{001C}\U{001D}\U{001E}\U{001F}"
  {
    c == ' ' || 9 <= c as int <= 13 || 28 <= c as int <= 31
  }

  predicate IsAscii(c: char) {
    c as int < 128
  }

  predicate IsSlash(c: char) {
    c == '/'
  }

  /** `s.encode('ascii', 'ignore').decode()`: every character above code point
      127 is dropped, the others are kept in order. */
  function KeepAscii(s: string): (r: string)
    ensures |r| <= |s|
    ensures forall c :: c in r ==> c in s && IsAscii(c)
  {
    if s == [] then []
    else (if IsAscii(s[0]) then [s[0]] else []) + KeepAscii(s[1..])
  }

  /** Every ASCII character of the input survives, and an all-ASCII string
      comes through unchanged. */
  lemma {:induction false} KeepAsciiKeeps(s: string)
    ensures forall i :: 0 <= i < |s| && IsAscii(s[i]) ==> s[i] in KeepAscii(s)
    ensures (forall i :: 0 <= i < |s| ==> IsAscii(s[i])) ==> KeepAscii(s) == s
  {
    if s != [] {
      KeepAsciiKeeps(s[1..]);
      assert forall i :: 1 <= i < |s| ==> s[i] == s[1..][i - 1];
    }
  }

  /** The filter keeps order: it works on each part of a concatenation on its own. */
  lemma {:induction false} KeepAsciiAppend(a: string, b: string)
    ensures KeepAscii(a + b) == KeepAscii(a) + KeepAscii(b)
  {
    if a == [] {
      assert a + b == b;
    } else {
      assert (a + b)[0] == a[0] && (a + b)[1..] == a[1..] + b;
      KeepAsciiAppend(a[1..], b);
      calc {
        KeepAscii(a + b);
        (if IsAscii(a[0]) then [a[0]] else []) + KeepAscii(a[1..] + b);
        (if IsAscii(a[0]) then [a[0]] else []) + (KeepAscii(a[1..]) + KeepAscii(b));
        KeepAscii(a) + KeepAscii(b);
      }
    }
  }

  /** On one character the filter keeps it exactly when it is ASCII; with
      `KeepAsciiAppend` this fixes the result for every string. */
  lemma KeepAsciiOne(c: char)
    ensures KeepAscii([c]) == if IsAscii(c) then [c] else []
  {
    assert [c][1..] == [];
  }

  /** `s.lstrip(chars)`, with the character set given as a predicate. */
  function LStrip(s: string, drop: char -> bool): (r: string)
    ensures |r| <= |s| && r == s[|s| - |r|..]
    ensures r == [] || !drop(r[0])
    ensures forall i :: 0 <= i < |s| - |r| ==> drop(s[i])
  {
    if s != [] && drop(s[0]) then LStrip(s[1..], drop) else s
  }

  /** `s.rstrip(chars)`, with the character set given as a predicate. */
  function RStrip(s: string, drop: char -> bool): (r: string)
    ensures |r| <= |s| && r == s[..|r|]
    ensures r == [] || !drop(r[|r| - 1])
    ensures forall i :: |r| <= i < |s| ==> drop(s[i])
  {
    if s != [] && drop(s[|s| - 1]) then RStrip(s[..|s| - 1], drop) else s
  }

  /** `s.strip(chars)`: the longest infix of `s` that neither starts nor ends
      with a dropped character; everything cut off on either side is dropped. */
  function Strip(s: string, drop: char -> bool): (r: string)
    ensures r == [] || (!drop(r[0]) && !drop(r[|r| - 1]))
    ensures exists k :: 0 <= k <= |s| - |r| && r == s[k..][..|r|]
                        && (forall i :: 0 <= i < k ==> drop(s[i]))
                        && (forall i :: k + |r| <= i < |s| ==> drop(s[i]))
    ensures (forall i :: 0 <= i < |s| ==> !drop(s[i])) ==> r == s
    ensures forall c :: c in r ==> c in s
  {
    var l := LStrip(s, drop);
    var r := RStrip(l, drop);
    assert r == s[|s| - |l|..][..|r|];
    assert forall c :: c in r ==> c in l;
    r
  }

  /** `s.replace(c, repl)` for a one-character needle: every occurrence of `c`
      is replaced by `repl`, left to right. */
  function Replace(s: string, c: char, repl: string): (r: string)
    ensures forall x :: x in r ==> (x in s && x != c) || x in repl
    ensures |repl| <= 1 ==> |r| <= |s|
  {
    if s == [] then []
    else (if s[0] == c then repl else [s[0]]) + Replace(s[1..], c, repl)
  }

  /** Replacing distributes over concatenation: a one-character needle never
      straddles the seam. */
  lemma {:induction false} ReplaceAppend(a: string, b: string, c: char, repl: string)
    ensures Replace(a + b, c, repl) == Replace(a, c, repl) + Replace(b, c, repl)
  {
    if a != [] {
      assert (a + b)[0] == a[0] && (a + b)[1..] == a[1..] + b;
      ReplaceAppend(a[1..], b, c, repl);
      calc {
        Replace(a + b, c, repl);
        (if a[0] == c then repl else [a[0]]) + Replace(a[1..] + b, c, repl);
        (if a[0] == c then repl else [a[0]]) + Replace(a[1..], c, repl) + Replace(b, c, repl);
        Replace(a, c, repl) + Replace(b, c, repl);
      }
    } else {
      assert a + b == b;
    }
  }

  /** Replacing in the empty string gives the empty string. */
  lemma ReplaceEmpty(c: char, repl: string)
    ensures Replace([], c, repl) == []
  {
  }

  /** Replacing in a one-character string. */
  lemma ReplaceOne(x: char, c: char, repl: string)
    ensures Replace([x], c, repl) == if x == c then repl else [x]
  {
    assert [x][1..] == [];
  }

  function DigitChar(d: nat): (c: char)
    requires d < 10
    ensures '0' <= c <= '9' && DigitValue(c) == d
  {
    (48 + d) as char
  }

  /** The value of one decimal digit. */
  function DigitValue(c: char): nat
    requires '0' <= c <= '9'
  {
    c as int - 48
  }

  /** The value of a string of decimal digits, most significant digit first. */
  function DigitsValue(s: string): nat
    requires forall i :: 0 <= i < |s| ==> '0' <= s[i] <= '9'
  {
    if s == [] then 0
    else 10 * DigitsValue(s[..|s| - 1]) + DigitValue(s[|s| - 1])
  }

  /** The decimal rendering of a natural number, as `f"{n}"` gives it: digits
      only, and no leading zero except for 0 itself. */
  function NatToString(n: nat): (r: string)
    ensures |r| >= 1
    ensures forall i :: 0 <= i < |r| ==> '0' <= r[i] <= '9'
    ensures n < 10 <==> |r| == 1
    ensures r[0] != '0' || n == 0
  {
    if n < 10 then [DigitChar(n)]
    else
      var p := NatToString(n / 10);
      assert (p + [DigitChar(n % 10)])[0] == p[0];
      p + [DigitChar(n % 10)]
  }

  /** The digits mean n: reading the rendering back gives the number. */
  lemma {:induction false} NatToStringValue(n: nat)
    ensures DigitsValue(NatToString(n)) == n
  {
    var s := NatToString(n);
    if n < 10 {
      assert s[..0] == [];
    } else {
      assert s[..|s| - 1] == NatToString(n / 10);
      NatToStringValue(n / 10);
    }
  }

  /** Different numbers render differently, so names built from them differ. */
  lemma {:induction false} NatToStringInjective(a: nat, b: nat)
    requires NatToString(a) == NatToString(b)
    ensures a == b
  {
    var s := NatToString(a);
    if a >= 10 {
      assert b >= 10;
      assert s[|s| - 1] == DigitChar(a % 10) == DigitChar(b % 10);
      assert s[..|s| - 1] == NatToString(a / 10) == NatToString(b / 10);
      NatToStringInjective(a / 10, b / 10);
    }
  }
}
