/**
 * The output file name of the e-book: `fix_windows_filename`, which removes
 * the characters Windows forbids in file names, and `create_epub_filename`,
 * which builds "<title> - <author>.epub" from the book metadata.
 */
module Filenames {
  import opened Text

  /** The nine characters the sanitiser touches. */
  predicate IsForbidden(c: char) {
    c in "\\/:*?\"<>|"
  }

  /** The eight forbidden characters that are deleted; ':' is replaced instead. */
  predicate IsDeleted(c: char) {
    IsForbidden(c) && c != ':'
  }

  predicate IsClean(s: string) {
    forall c :: c in s ==> !IsForbidden(c)
  }

  /** `fix_windows_filename`, as written: nine `str.replace` calls applied one
      after the other to the running result. */
  function FixWindowsFilename(s: string): (r: string)
    ensures |r| <= |s|
  {
    var s1 := Replace(s, '\\', "");
    var s2 := Replace(s1, '/', "");
    var s3 := Replace(s2, ':', "_");
    var s4 := Replace(s3, '*', "");
    var s5 := Replace(s4, '?', "");
    var s6 := Replace(s5, '"', "");
    var s7 := Replace(s6, '<', "");
    var s8 := Replace(s7, '>', "");
    Replace(s8, '|', "")
  }

  /** What one character of the input becomes in the output. */
  function SanitizeChar(c: char): (r: string)
  {
    if c == ':' then "_" else if IsDeleted(c) then "" else [c]
  }

  /** The reference definition: one pass that maps each character on its own,
      keeping the order of the characters that survive. */
  function Sanitize(s: string): (r: string)
    ensures IsClean(r)
    ensures forall x :: x in r ==> x in s || x == '_'
    ensures |r| <= |s|
  {
    if s == [] then [] else SanitizeChar(s[0]) + Sanitize(s[1..])
  }

  lemma {:induction false} SanitizeAppend(a: string, b: string)
    ensures Sanitize(a + b) == Sanitize(a) + Sanitize(b)
  {
    if a == [] {
      assert a + b == b;
    } else {
      assert (a + b)[0] == a[0] && (a + b)[1..] == a[1..] + b;
      SanitizeAppend(a[1..], b);
      calc {
        Sanitize(a + b);
        SanitizeChar(a[0]) + Sanitize(a[1..] + b);
        SanitizeChar(a[0]) + Sanitize(a[1..]) + Sanitize(b);
        Sanitize(a) + Sanitize(b);
      }
    }
  }

  /** The chain distributes over concatenation, because every step does. */
  lemma FixAppend(a: string, b: string)
    ensures FixWindowsFilename(a + b) == FixWindowsFilename(a) + FixWindowsFilename(b)
  {
    var a1, b1 := Replace(a, '\\', ""), Replace(b, '\\', "");
    ReplaceAppend(a, b, '\\', "");
    var a2, b2 := Replace(a1, '/', ""), Replace(b1, '/', "");
    ReplaceAppend(a1, b1, '/', "");
    var a3, b3 := Replace(a2, ':', "_"), Replace(b2, ':', "_");
    ReplaceAppend(a2, b2, ':', "_");
    var a4, b4 := Replace(a3, '*', ""), Replace(b3, '*', "");
    ReplaceAppend(a3, b3, '*', "");
    var a5, b5 := Replace(a4, '?', ""), Replace(b4, '?', "");
    ReplaceAppend(a4, b4, '?', "");
    var a6, b6 := Replace(a5, '"', ""), Replace(b5, '"', "");
    ReplaceAppend(a5, b5, '"', "");
    var a7, b7 := Replace(a6, '<', ""), Replace(b6, '<', "");
    ReplaceAppend(a6, b6, '<', "");
    var a8, b8 := Replace(a7, '>', ""), Replace(b7, '>', "");
    ReplaceAppend(a7, b7, '>', "");
    ReplaceAppend(a8, b8, '|', "");
  }

  /** A character the chain does not touch goes through all nine steps. */
  lemma FixKept(x: char)
    requires !IsForbidden(x)
    ensures FixWindowsFilename([x]) == [x]
  {
    ReplaceOne(x, '\\', "");
    ReplaceOne(x, '/', "");
    ReplaceOne(x, ':', "_");
    ReplaceOne(x, '*', "");
    ReplaceOne(x, '?', "");
    ReplaceOne(x, '"', "");
    ReplaceOne(x, '<', "");
    ReplaceOne(x, '>', "");
    ReplaceOne(x, '|', "");
  }

  /** ':' becomes '_' at the third step, and no later step touches '_'. */
  lemma FixColon()
    ensures FixWindowsFilename(":") == "_"
  {
    ReplaceOne(':', '\\', "");
    ReplaceOne(':', '/', "");
    ReplaceOne(':', ':', "_");
    ReplaceOne('_', '*', "");
    ReplaceOne('_', '?', "");
    ReplaceOne('_', '"', "");
    ReplaceOne('_', '<', "");
    ReplaceOne('_', '>', "");
    ReplaceOne('_', '|', "");
  }

  /** A deleted character disappears at its own step; the empty string then
      passes the remaining steps unchanged. */
  lemma FixDeleted(x: char)
    requires IsDeleted(x)
    ensures FixWindowsFilename([x]) == []
  {
    ReplaceOne(x, '\\', "");
    ReplaceOne(x, '/', "");
    ReplaceOne(x, ':', "_");
    ReplaceOne(x, '*', "");
    ReplaceOne(x, '?', "");
    ReplaceOne(x, '"', "");
    ReplaceOne(x, '<', "");
    ReplaceOne(x, '>', "");
    ReplaceOne(x, '|', "");
  }

  /** On a single character the chain does what `SanitizeChar` says. */
  lemma FixOne(x: char)
    ensures FixWindowsFilename([x]) == SanitizeChar(x)
  {
    if x == ':' {
      FixColon();
    } else if IsDeleted(x) {
      FixDeleted(x);
    } else {
      FixKept(x);
    }
  }

  /** The sequential chain of replacements equals the per-character map. */
  lemma {:induction false} FixIsSanitize(s: string)
    ensures FixWindowsFilename(s) == Sanitize(s)
  {
    if s == [] {
      ReplaceEmpty('\\', "");
      ReplaceEmpty('/', "");
      ReplaceEmpty(':', "_");
      ReplaceEmpty('*', "");
      ReplaceEmpty('?', "");
      ReplaceEmpty('"', "");
      ReplaceEmpty('<', "");
      ReplaceEmpty('>', "");
      ReplaceEmpty('|', "");
    } else {
      assert s == [s[0]] + s[1..];
      FixAppend([s[0]], s[1..]);
      FixOne(s[0]);
      FixIsSanitize(s[1..]);
    }
  }

  /** No forbidden character survives the chain, and the only character it
      can introduce is '_'. */
  lemma FixClean(s: string)
    ensures IsClean(FixWindowsFilename(s))
    ensures forall x :: x in FixWindowsFilename(s) ==> x in s || x == '_'
  {
    FixIsSanitize(s);
  }

  /** Positionwise reading of the map: the output is the input with every ':'
      turned into '_' and every other forbidden character removed. */
  lemma {:induction false} FixKeepsOthers(s: string, i: nat)
    requires i < |s| && !IsDeleted(s[i])
    ensures |Sanitize(s[..i])| < |FixWindowsFilename(s)|
    ensures FixWindowsFilename(s)[|Sanitize(s[..i])|] == if s[i] == ':' then '_' else s[i]
  {
    FixIsSanitize(s);
    assert s == s[..i] + ([s[i]] + s[i + 1..]);
    SanitizeAppend(s[..i], [s[i]] + s[i + 1..]);
    SanitizeAppend([s[i]], s[i + 1..]);
    assert Sanitize([s[i]]) == SanitizeChar(s[i]) by {
      assert [s[i]][1..] == [];
    }
  }

  /** A name that is already clean is left alone. */
  lemma {:induction false} SanitizeClean(s: string)
    requires IsClean(s)
    ensures Sanitize(s) == s
  {
    if s != [] {
      assert s[0] in s && forall c :: c in s[1..] ==> c in s;
      SanitizeClean(s[1..]);
    }
  }

  /** Sanitising twice is sanitising once. */
  lemma FixIdempotent(s: string)
    ensures FixWindowsFilename(FixWindowsFilename(s)) == FixWindowsFilename(s)
  {
    var r := FixWindowsFilename(s);
    FixClean(s);
    FixIsSanitize(r);
    SanitizeClean(r);
  }

  /** How many characters the sanitiser deletes. */
  function CountDeleted(s: string): nat
  {
    if s == [] then 0 else (if IsDeleted(s[0]) then 1 else 0) + CountDeleted(s[1..])
  }

  lemma {:induction false} SanitizeLength(s: string)
    ensures |Sanitize(s)| == |s| - CountDeleted(s)
    ensures CountDeleted(s) == 0 <==> forall i :: 0 <= i < |s| ==> !IsDeleted(s[i])
  {
    if s != [] {
      SanitizeLength(s[1..]);
      assert forall i :: 1 <= i < |s| ==> s[i] == s[1..][i - 1];
    }
  }

  /** The output is never longer than the input, and exactly as long when no
      deleted character occurs in the input. */
  lemma FixLength(s: string)
    ensures |FixWindowsFilename(s)| == |s| - CountDeleted(s)
    ensures |FixWindowsFilename(s)| == |s| <==> forall i :: 0 <= i < |s| ==> !IsDeleted(s[i])
  {
    FixIsSanitize(s);
    SanitizeLength(s);
  }

  /** The ASCII part of a metadata field with surrounding whitespace removed. */
  function AsciiStripped(s: string): (r: string)
    ensures forall c :: c in r ==> c in s && IsAscii(c)
    ensures r == [] || (!IsSpace(r[0]) && !IsSpace(r[|r| - 1]))
  {
    Strip(KeepAscii(s), IsSpace)
  }

  /** Appending ".epub" keeps a clean ASCII name clean and ASCII. */
  lemma CleanExtension(s: string)
    requires IsClean(s) && forall c :: c in s ==> IsAscii(c)
    ensures IsClean(s + ".epub") && forall c :: c in s + ".epub" ==> IsAscii(c)
  {
  }

  /** The f-string "<title> - <author>" over the stripped ASCII parts. */
  function JoinedName(title: string, author: string): (r: string)
    ensures forall c :: c in r ==> IsAscii(c)
  {
    AsciiStripped(title) + " - " + AsciiStripped(author)
  }

  /** `create_epub_filename`: the joined name sanitised as a whole, with
      ".epub" appended. */
  function CreateEpubFilename(title: string, author: string): (r: string)
    ensures |r| >= 5 && r[|r| - 5..] == ".epub"
    ensures IsClean(r)
    ensures forall c :: c in r ==> IsAscii(c)
  {
    var joined := JoinedName(title, author);
    var fixed := FixWindowsFilename(joined);
    FixClean(joined);
    assert forall c :: c in fixed ==> IsAscii(c);
    CleanExtension(fixed);
    fixed + ".epub"
  }

  /** The separator " - " passes through sanitising untouched. */
  lemma SanitizeAroundSeparator(a: string, b: string)
    ensures Sanitize(a + " - " + b) == Sanitize(a) + " - " + Sanitize(b)
  {
    var sep := " - ";
    assert IsClean(sep);
    SanitizeClean(sep);
    SanitizeAppend(a, sep);
    SanitizeAppend(a + sep, b);
  }

  /** The file name splits into the sanitised title, the separator " - ", the
      sanitised author and the extension: the separator survives sanitising. */
  lemma EpubFilenameParts(title: string, author: string)
    ensures CreateEpubFilename(title, author)
            == Sanitize(AsciiStripped(title)) + " - " + Sanitize(AsciiStripped(author)) + ".epub"
  {
    FixIsSanitize(JoinedName(title, author));
    SanitizeAroundSeparator(AsciiStripped(title), AsciiStripped(author));
  }
}
