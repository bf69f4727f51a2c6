# WebnovelToEPUB, the deterministic core

WebnovelToEPUB.py scrapes the unlocked chapters of a webnovel.com story
through a logged-in browser and packs them into an EPUB file. Around the
browser, the HTML parser and the EPUB library sits a small deterministic core.
This project models that core in Dafny and proves what it promises:

- `fix_windows_filename` (module `Filenames`): the chain of nine
  `str.replace` calls that removes the characters Windows forbids in file
  names. The chain is proved equal to a one-pass per-character map `Sanitize`.
  In that map ':' becomes '_', the other eight forbidden characters are
  deleted, and every other character is kept in order. From this follow
  cleanliness, idempotence and the exact output length.
- `create_epub_filename` (module `Filenames`):
  - the title and the author each keep only their ASCII characters and lose
    surrounding whitespace;
  - they are joined with " - ";
  - the result is sanitised and ".epub" is appended.
- The book ID expression at line 112 (module `Metadata`): the text after the
  last '_' of `mainEntityOfPage`, with every trailing '/' removed.
- The chapter loop at lines 235-313 (module `Chapters`). It runs over the
  sequence of unlocked catalog entries and covers:
  - the 1-based counter;
  - the names `chap_<n>.xhtml` and `chapter_<n>.html`;
  - the "N/A" default for a missing number;
  - the spine (`nav`, then the chapters) and the table of contents, both
    accumulated in listing order;
  - cache hits and misses against the cache directory, and the cache file
    rewritten after every chapter;
  - the pause rule with its two ranges.

  The loop is a method. Its accumulators are local sequences and the cache
  directory is a set of file names. Each postcondition ties a result to a
  specification function of the entries.
- Python string behaviour that the core relies on (module `Text`):
  - `encode('ascii', 'ignore')`;
  - `strip`, `lstrip` and `rstrip` with a character set;
  - single-character `replace`;
  - the decimal rendering of an `int` inside an f-string.

Strings are `seq<char>`. `str.isspace` is modelled on the ASCII range
(tab, line feed, vertical tab, form feed, carriage return, 0x1C-0x1F, space).
This is exact here, because `strip()` is only applied after the non-ASCII
characters are gone. `strip('//')` strips the character set {'/'} from both
ends, as Python defines it.

The chapter heading at line 278 opens `<h2>` and closes `</h1>`.
`Chapters.HeadingOf` keeps that literal verbatim.

## Model

| member | source | states |
|---|---|---|
| Text.IsSpace | WebnovelToEPUB.py:120-121 | the whitespace that `strip()` removes from ASCII text is exactly tab, line feed, vertical tab, form feed, carriage return, the separators 0x1C-0x1F and space |
| Text.KeepAscii | WebnovelToEPUB.py:120-121 | the ASCII filter never lengthens its input, and every output character is an ASCII character of the input |
| Text.KeepAsciiKeeps | WebnovelToEPUB.py:120-121 | every ASCII character of the input survives the filter, and an all-ASCII string comes through unchanged |
| Text.KeepAsciiAppend | WebnovelToEPUB.py:120-121 | the filter keeps order: filtering a concatenation is the concatenation of the filtered parts |
| Text.KeepAsciiOne | WebnovelToEPUB.py:120-121 | one character is kept exactly when it is ASCII; with the previous row this fixes the filter's result for every string |
| Text.LStrip | WebnovelToEPUB.py:120-121 | the result is a suffix of the input that does not start with a dropped character, and everything cut off is dropped characters |
| Text.RStrip | WebnovelToEPUB.py:112 | the result is a prefix of the input that does not end with a dropped character, and everything cut off is dropped characters |
| Text.Strip | WebnovelToEPUB.py:120-121 | the result is an infix of the input that neither starts nor ends with a dropped character; everything removed on either side is dropped characters; an input without dropped characters is returned unchanged |
| Text.Replace | WebnovelToEPUB.py:137-145 | a single-character replace leaves no occurrence of the needle except those brought in by the replacement, and with a replacement of at most one character it never lengthens the string |
| Text.ReplaceAppend | WebnovelToEPUB.py:137-145 | replacing a single character distributes over concatenation |
| Text.NatToString | WebnovelToEPUB.py:254 | the decimal rendering of the counter is non-empty and all digits, with a single digit exactly below 10 and no leading zero except for 0 itself |
| Text.NatToStringValue | WebnovelToEPUB.py:254 | the digits mean the number: reading the rendering back as a decimal numeral gives the counter |
| Text.NatToStringInjective | WebnovelToEPUB.py:283 | different counters render differently |
| Filenames.FixWindowsFilename | WebnovelToEPUB.py:129-147 | the nine replacements applied in source order never lengthen the name; what the result is, is stated by the lemmas in the following rows |
| Filenames.Sanitize | WebnovelToEPUB.py:137-145 | the per-character reference map yields no forbidden character, introduces no character except '_', and never lengthens its input |
| Filenames.SanitizeAppend | WebnovelToEPUB.py:137-145 | the reference map distributes over concatenation |
| Filenames.FixAppend | WebnovelToEPUB.py:135-147 | the nine-step chain distributes over concatenation |
| Filenames.FixOne | WebnovelToEPUB.py:137-145 | on one character the chain turns ':' into "_", deletes the other eight forbidden characters and keeps every other character |
| Filenames.FixIsSanitize | WebnovelToEPUB.py:135-147 | the sequential chain of nine replacements equals the one-pass per-character map, for every input |
| Filenames.FixClean | WebnovelToEPUB.py:137-145 | the output of `fix_windows_filename` contains none of the nine forbidden characters, and every output character is an input character or '_' |
| Filenames.FixKeepsOthers | WebnovelToEPUB.py:135-147 | every character of the input that is not deleted appears in the output, in order, at the position given by the sanitised prefix before it, with ':' turned into '_' |
| Filenames.SanitizeClean | WebnovelToEPUB.py:137-145 | a name with no forbidden character is left unchanged |
| Filenames.FixIdempotent | WebnovelToEPUB.py:137-145 | applying `fix_windows_filename` twice gives the same result as applying it once |
| Filenames.SanitizeLength | WebnovelToEPUB.py:137-145 | the reference map shortens its input by exactly the number of deleted characters, and that number is zero exactly when no deleted character occurs |
| Filenames.FixLength | WebnovelToEPUB.py:137-145 | the output is as long as the input minus the deleted characters, and exactly as long as the input if and only if the input has no deleted character |
| Filenames.AsciiStripped | WebnovelToEPUB.py:120-121 | the prepared title or author contains only ASCII characters of the field, and neither starts nor ends with whitespace |
| Filenames.JoinedName | WebnovelToEPUB.py:123 | the joined "<title> - <author>" is entirely ASCII |
| Filenames.CreateEpubFilename | WebnovelToEPUB.py:117-126 | the file name ends in ".epub", contains no forbidden character and is entirely ASCII |
| Filenames.SanitizeAroundSeparator | WebnovelToEPUB.py:123-124 | sanitising "<a> - <b>" sanitises each side and keeps the separator " - " |
| Filenames.EpubFilenameParts | WebnovelToEPUB.py:120-124 | the file name is the sanitised stripped ASCII title, then " - ", then the sanitised stripped ASCII author, then ".epub" |
| Metadata.LastFieldStart | WebnovelToEPUB.py:112 | `split('_')[-1]` starts right after a '_', or at 0, and contains no '_' |
| Metadata.BookId | WebnovelToEPUB.py:112 | the ID is the text after the last '_' of the address with every trailing '/' removed: it is a slice of the address starting at the last field, only '/' follows it, it contains no '_' and it does not end in '/' |
| Metadata.NoUnderscoreWholeString | WebnovelToEPUB.py:112 | an address without '_' yields its whole text as the last field |
| Metadata.LastFieldAfterSeparator | WebnovelToEPUB.py:112 | the last field is the text after the last '_', whatever precedes that '_' |
| Chapters.ChapterFileName | WebnovelToEPUB.py:283 | a chapter's file name in the e-book starts with "chap_" and ends with ".xhtml" |
| Chapters.ChapterFileNameValue | WebnovelToEPUB.py:283 | between "chap_" and ".xhtml" stand the decimal digits of the counter, without a leading zero |
| Chapters.ChapterFileNameInjective | WebnovelToEPUB.py:283 | different counters give different chapter file names |
| Chapters.CacheFileName | WebnovelToEPUB.py:254 | a chapter's cache file name starts with "chapter_" and ends with ".html" |
| Chapters.CacheFileNameValue | WebnovelToEPUB.py:254 | between "chapter_" and ".html" stand the decimal digits of the counter, without a leading zero |
| Chapters.CacheFileNameInjective | WebnovelToEPUB.py:293 | different counters give different cache file names |
| Chapters.ChapterUrl | WebnovelToEPUB.py:240 | the fetched address starts with "https://", its path neither starts nor ends with '/', and every character of the path comes from the href |
| Chapters.Chapter.TocTitle | WebnovelToEPUB.py:283 | the e-book chapter's title is the number text, then ": ", then the chapter title |
| Chapters.HeadingCarriesTocTitle | WebnovelToEPUB.py:278-283 | the text between the heading's tags is exactly the chapter's title in the e-book |
| Chapters.HeadingOf | WebnovelToEPUB.py:278 | the heading is "<center><h2>", then "<number>: <title>", then "</h1></center>", with the mismatched closing tag kept as written |
| Chapters.ChapterOf | WebnovelToEPUB.py:241-247 | the chapter carries the counter and the title, and its number is the entry's number text, or "N/A" when the entry has none |
| Chapters.IsHit | WebnovelToEPUB.py:253-255 | with caching off no chapter is ever read from the cache |
| Chapters.HitAfterRun | WebnovelToEPUB.py:253-255 | after chapters 1..m of a run with caching on, chapter k is a hit if and only if it was one of them or its file existed before the run |
| Chapters.PauseAllowed | WebnovelToEPUB.py:296-308 | an allowed pause is a sleep exactly when the chapter was fetched live and is not the last one, and a sleep lasts between 1 and 45 seconds |
| Chapters.CacheFileFresh | WebnovelToEPUB.py:292-294 | the cache files written for chapters 1..m never include the file of a later chapter, so a write never turns a later lookup in the same run into a hit |
| Chapters.CacheFilesHas | WebnovelToEPUB.py:292-294 | once chapters 1..n are done, each of them has its cache file |
| Chapters.ChaptersSnoc | WebnovelToEPUB.py:289 | one more entry appends one chapter, with the next counter, to the table of contents |
| Chapters.SourcesSnoc | WebnovelToEPUB.py:253-262 | one more entry appends the source of that entry's page |
| Chapters.PausesSnoc | WebnovelToEPUB.py:296-308 | a pause that follows the rule extends a run of pauses that follow it |
| Chapters.PagesAppend | WebnovelToEPUB.py:290 | appending a chapter appends its page to the spine |
| Chapters.CacheGrows | WebnovelToEPUB.py:292-294 | one more chapter adds its cache file to the directory and to the writes, at the end |
| Chapters.PauseAfter | WebnovelToEPUB.py:296-308 | no pause after a cache hit or after the last chapter; otherwise a pause of 1 to 2 seconds in debug mode and of 15 to 45 seconds otherwise |
| Chapters.ProcessChapter | WebnovelToEPUB.py:238-308 | one pass of the loop body: the page comes from the cache exactly when caching is on and the chapter's cache file exists, and from the stripped href otherwise; the chapter carries the counter, the number or "N/A" and the title; the cache file is written exactly when caching is on; the pause follows the rule |
| Chapters.AssembleChapters | WebnovelToEPUB.py:213-313 | the i-th entry in listing order becomes the chapter with counter i (so `chap_i.xhtml` and `chapter_i.html`), with "N/A" for a missing number; the table of contents is those chapters in order and the spine is `nav` followed by them; the sources, the pauses and the cache writes follow the cache directory as it was before the loop; after the loop the directory holds the file of every chapter when caching is on |
| Chapters.ChapterFileNamesDistinct | WebnovelToEPUB.py:283 | no two chapters of the e-book share a file name |
| Chapters.SecondRunReadsCache | WebnovelToEPUB.py:253-258 | after a run with caching on, a second run over a listing of any length reads every chapter already cached in the first run from the cache, and does not pause after it |

## Left out

- The browser session (Selenium): `webdriver_get_soup`, its readiness polling, the login page and prompt. These are I/O and timing. A live fetch is the `Live` source with the address it would request.
- HTML parsing and tree surgery (BeautifulSoup): `decompose_locked_chapters`, the catalog anchor search, and the removal of the pirate notice and comment bubbles. They depend on page markup that the code does not show. The loop takes the already-unlocked entries, each with its href, optional number text and title, as its input.
- Runs that stop early. The loop is modelled only for runs in which every page is obtained and every `cha-paragraph` div holds a `dib pr` div. `webdriver_get_soup` returns `None` on a timeout, a WebDriverException or an empty page (lines 61-71), and line 265 then raises; line 280 raises an AttributeError when a `cha-paragraph` div has no `dib pr` child. Either way the run ends before the table of contents and spine appends (289-290) and the cache write (292-294) of chapter k, and no EPUB file is written. With caching on, such a run leaves the cache directory as `cacheDir + CacheFiles(k - 1)`.
- Chapter page contents and the paragraph HTML appended after the heading (lines 276-280). These are parser output. A chapter carries its heading (`Chapters.HeadingOf`) but not its paragraphs.
- The `ast.literal_eval` of the JSON-LD block and the title and author lookups (lines 106-110). This is a foreign parser. Only the ID expression at line 112 is modelled.
- EPUB packaging (ebooklib): `EpubBook`, metadata setters, `add_item`, the NCX and navigation items, the style sheet and `write_epub`. The spine and the table of contents are plain sequences.
- Command-line parsing, `os.path`, `mkdir` and file reads and writes. The cache directory is a set of file names, and the contents of cache files are not modelled.
- `time.sleep` and the progress output. A pause is a value.
- `random.randint`: the drawn number is an arbitrary choice within its range.
- `Text.IsSpace`: covers only the ASCII whitespace of `str.isspace`, because `strip()` only ever sees ASCII text here.
