# Program listing scraper: a verified model

This project models `scrape_and_update_index` in `scraper.py`. The procedure fetches
an events page and finds the program blocks inside its `view-content` container. From
each block it takes a title, a date/time line, a location and a registration link,
and renders a card. It then rewrites the index page: everything between the first
start marker and the first end marker is replaced by the cards.

The model has four modules:

- `Text` (`text.dfy`) holds the Python string operations the procedure relies on:
  `str.strip()`, `str.find`, `in`, `str.join`, the literal `re.sub(... '.*')` cut,
  and the `Register`/`\d{6}`/`Online` tests.
- `Injector` (`injector.dfy`) is the marker splice. It is a pure function on the
  file content with lemmas about what it keeps, in what order it writes the cards,
  when splicing twice is the same as splicing once, and what happens when the
  markers are in the wrong order.
- `Extractor` (`extractor.dfy`) works on one block. A block is its descendant
  elements in document order plus its flattened text, and a parser `find` becomes
  "the first element satisfying a predicate". Each field is the first match or its
  own default string.
- `Scraper` (`scraper.dfy`) holds the run itself. `BuildCards` is the `for` loop
  that appends one card per block; an exception ends the loop and keeps the cards
  built so far. `ScrapeAndUpdateIndex` has the early returns: a failed fetch or a
  missing container writes nothing, and otherwise the cards go to the splice.

Things the model cannot compute are parameters:
- the HTTP response, as `None` for a failed fetch or a parsed `Page`;
- the page's block selection, as `ViewContent`;
- the file content, as a string in and an optional string written;
- the marker strings, whose values are not part of this model;
- an `Oracles` value holding the date/time regular expression, the two
  substitutions that are not modelled, and the card renderer.

The model follows the code as written:

- The file is written whenever both markers are found, even if the new content
  equals the old one.
- A missing `view-content` container ends the run without writing.
- The marker order is not checked. `SpliceReversedMarkers` shows the duplication
  this causes.
- Location and link can be empty (`LocationMayBeEmpty`, `LinkMayBeEmpty`). Only the
  title is guaranteed non-empty: it is always longer than 10 characters.

## Model

| member | source | states |
|---|---|---|
| Text.Strip | scraper.py:53 | `strip()` returns the slice of its input left after removing whitespace (Python's `isspace` set) at both ends; what was removed is all whitespace, the result has none at either end, and trimmed input comes back unchanged |
| Text.Find | scraper.py:98-99 | `find` returns the lowest index where the pattern occurs; `None` (Python's -1) exactly when it occurs nowhere |
| Text.Contains | scraper.py:52 | `pat in s` holds exactly when the pattern occurs at some index |
| Text.TruncateAt | scraper.py:76 | removing `with Vishal Merani.*` cuts the text at the first occurrence of the note: the result is the prefix before the index `find` gives, equal to the input when the note is absent, and it no longer contains the note |
| Text.LowerAscii | scraper.py:37 | ASCII case folding as `re.IGNORECASE` applies it: a capital letter becomes its small letter (code point plus 32), every other character is unchanged |
| Text.LowerAsciiString | scraper.py:56 | folding a string folds each character in place and keeps the length |
| Text.JoinPartAt | scraper.py:96 | `"\n\n".join(cards)` holds every card character for character at its offset, in list order, with the separator between neighbours and nothing after the last card |
| Injector.Region | scraper.py:96-108 | the text between the markers starts and ends with a newline; with zero cards it is exactly `"\n\n"`, so stale entries are cleared |
| Injector.Splice | scraper.py:96-110 | no new content when either marker is missing; otherwise the output is the text read up to and including the first start marker, then the region, then the text from the first end marker onward, character for character |
| Injector.SpliceClearsRegion | scraper.py:96-110 | for `before + START + stale + END + after` with those marker positions, zero cards give `before + START + "\n\n" + END + after` |
| Injector.RegionCardsInOrder | scraper.py:96-108 | card `i` sits in the region right after the leading newline and the earlier cards with their blank lines, and is followed by a blank line, or by the closing newline if it is the last; with `Splice` placing the region right after the first start marker, this fixes where every card lands in the output |
| Injector.SpliceTwice | scraper.py:98-110 | splicing the same cards into the output again returns the output unchanged if and only if the end marker does not occur in the kept prefix plus the new region, including occurrences that run into the end marker |
| Injector.SpliceReversedMarkers | scraper.py:98-110 | when the end marker lies wholly before the start marker, nothing stops the write: the output holds both markers twice and is longer than the input |
| Extractor.FindElement | scraper.py:52 | the parser's `find` with a predicate gives the first element in document order that satisfies it, or `None` exactly when none does |
| Extractor.TitleOf | scraper.py:52-53 | the title is the stripped text of the first h3/h4/div/p element whose stripped text is longer than 10 characters and which contains Program, Meditation, Yoga or Course; otherwise it is `Program Title Unknown`. It is always longer than 10 characters |
| Extractor.LinkOf | scraper.py:56-57 | the link is the `href` of the first anchor whose only text matches `Register` in any case, or `#` when there is none; a missing `href` attribute is an error (`None`) |
| Extractor.DateTimeText | scraper.py:60-66 | the date/time text is empty exactly when the regular expression does not match |
| Extractor.DateTimeSplits | scraper.py:64-66 | on a match the text is the stripped date, the separator (space, vertical bar, space) and the stripped time; when the date holds no vertical bar, the first separator is right after the date, so splitting there gives both groups back |
| Extractor.DateTimeMisSplit | scraper.py:61-66 | the lazy date group can end in a space and a vertical bar; then the first separator lies inside the date, so splitting at it does not give the date back |
| Extractor.CleanLocation | scraper.py:73-77 | the cleaned location text has no whitespace at either end |
| Extractor.LocationOf | scraper.py:69-77 | the location is the cleaned text of the first element whose text contains six digits in a row or `Online`, or `Location/Mode Details Missing` when there is none |
| Extractor.ExtractRecord | scraper.py:51-77 | a block fails exactly when its first Register anchor has no `href`. Otherwise the record holds the title, link, location and date/time text as `TitleOf`, `LinkOf`, `LocationOf` and `DateTimeText` give them: each the first match or its own default, and the date/time empty exactly when the regex does not match |
| Extractor.ExtractCard | scraper.py:79-84 | a block whose record raises gives no card; otherwise the card is what the renderer returns for that record, `None` when it raises |
| Extractor.LocationMayBeEmpty | scraper.py:73-77 | an element reading `with Vishal Merani - Online` yields an empty location: the code does not guarantee a non-empty location |
| Extractor.LinkMayBeEmpty | scraper.py:56-57 | a Register anchor with `href=""` yields an empty link |
| Scraper.Present | scraper.py:40 | filtering out missing parents keeps exactly the present ones |
| Scraper.PresentAppend | scraper.py:40 | the filter keeps the order of the parents it keeps |
| Scraper.ProgramBlocks | scraper.py:32-40 | the class-selected rows are used when there are any; otherwise exactly the existing ancestors of the Register buttons, in button order and with repeats kept, so a row holding two Register anchors is processed twice |
| Scraper.ExtractedCards | scraper.py:48-88 | the cards are one per block in block order, up to the first block that raises; that block and all later ones give no card |
| Scraper.ExtractedCardsUnique | scraper.py:48-88 | any list that has one successful card per block, in order, up to a block that raises or the end of the blocks, is exactly the extracted list |
| Scraper.BuildCards | scraper.py:48-88 | the loop ends with exactly those cards and reports a failure exactly when it stopped before the last block |
| Scraper.ScrapeAndUpdateIndex | scraper.py:8-113 | a failed fetch or a missing container writes nothing. Otherwise the content written is the splice of the cards built before any parsing error, so zero cards still clear the region, and a missing marker writes nothing |

## Left out

- The HTTP request (user agent, timeout, status check) is not modelled. It is only its outcome: a parsed page or `None`.
- HTML parsing and tree navigation are not modelled. The model works on their results: `find_all` with the class filter, the fallback through `find_parent` or `.parent.parent`, and each element's text, sole string and `href`.
- The date/time regular expression and the phone/e-mail and rupee-price substitutions are oracles (`Oracles`). Python regular-expression semantics are not modelled for them.
- `generate_card_html` is not part of this model. It is an oracle that returns a card or `None` when it raises.
- Reading and writing the index file, and the `IOError` handler, are not modelled: content goes in as a string and the written content comes out.
- The file is opened in text mode, so "character for character" holds for the text as read, not for the bytes on disk. Reading turns "\r\n" and "\r" into "\n", so on a file with CRLF line endings the write also rewrites every line ending outside the markers. A file that cannot be decoded raises, the generic handler catches it, and nothing is written. Neither newline translation nor decoding is modelled.
- The progress and diagnostic messages are not modelled.
- Text.ContainsIgnoreCase: `re.IGNORECASE` is modelled with ASCII case folding only. Unicode case equivalences such as the long s or the Kelvin sign are not modelled.
- Text.HasSixDigits: `\d` is modelled as ASCII digits. Python also accepts other Unicode decimal digits.
- Extractor.CleanLocation: the contract promises only trimmed ends, because the two substitutions around the teacher-note cut are oracles.
- Exceptions raised in the container lookup or in the fallback ancestor lookup are not modelled. Only a missing `href` and a failing renderer raise inside the loop.
- The `scraper.js` workflow (schedule, commit and push) is not part of this model.
