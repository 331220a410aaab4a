# Liturgical-instructions bot: page extraction and rendering

The bot answers a date typed as `DD.MM.YYYY` with the liturgical instructions ("Богослужебные
указания") that a church website publishes for that day. For one request it does the following:

1. It validates the date and re-formats it as the site's `yyyy-MM-dd` address segment.
2. It fetches `<base>/<yyyy-MM-dd>`.
3. It extracts the page title, one entry per `blockquote` group and, in full mode, the commentary
   paragraphs. Each group entry is a bold title and either the scripture readings as Markdown links
   or an italic note.
4. It joins these items with blank lines. In full mode every paragraph is tried in turn, and each
   is added only if the message then stays below 4000 characters.
5. It attaches three buttons: short mode, full mode, and a link to the page.

A mode button carries `short_<date>` or `full_<date>` as its payload. Pressing it replays the
request from the payload alone, with no session state.

The model is pure Dafny functions over an abstract document tree. The network is a function from
address to response.

| module | file | what it holds |
|---|---|---|
| `Wrappers` | wrappers.dfy | `Option`, `Result` |
| `Strings` | strings.dfy | JavaScript `join`, `split` on one character, `trim`, global delete-`replace` |
| `Decimal` | decimal.dfy | digit runs, their values, zero padding |
| `Dates` | dates.dfy | the two date layouts, calendar validity, parse and format |
| `Payload` | payload.dfy | the callback payload encoding |
| `Sequences` | sequences.dfy | order-preserving selection (`IsSubseq`) |
| `Dom` | dom.dfy | the document tree and the four CSS selectors the service uses |
| `Extract` | extract.dfy | title, reading text, group entries, commentary paragraphs |
| `Budget` | budget.dfy | the 4000-character admission policy of full mode |
| `Service` | service.dfy | one request, the reply and its buttons, the button press |

Behaviour worth noting:

- **A failed status alone does not reject.** The request is rejected only when the client reports an
  error *and* the status is not 200 (`src/app.service.ts:62`). A non-200 answer without an error
  object is extracted like any page. `Service.ParsePage` states this as an if-and-only-if.
- **Extraction never fails.**
  - A page without a section paragraph gives the title `**` (`Extract.PageTitle`).
  - A group without a `b` child prints `undefined` as its title, and one without any other child
    prints `undefined` as its content (`Extract.GroupEntryLastWins`).
- **The drop-last step removes only the final segment.** When the last reading unit contributes only
  its line break, the unit before it keeps its own trailing `"\n"` (`Extract.ReadingTextLines`).

## Model

| member | source | states |
|---|---|---|
| Dates.Parse | src/app.service.ts:53-55 | a date the user layout accepts is a real calendar date (month 1 to 12, day within the month, Gregorian leap years) |
| Dates.ParseAcceptsExactlyPrintedDates | src/app.service.ts:53-55 | the user layout accepts a string if and only if it is exactly the printed form of some valid date |
| Dates.ParseFormat | src/app.service.ts:57 | formatting a valid date in either layout and parsing it back gives the same date |
| Dates.FormatParse | src/app.service.ts:69 | any string a layout accepts is printed back character for character by that layout |
| Dates.UserSiteRoundTrip | src/app.service.ts:57-69 | translating a typed date to the site's address segment and back shows the date exactly as typed |
| Dates.RejectsFebruary31 | src/app.service.ts:53-55 | `31.02.2024` is rejected |
| Dates.LeapDay | src/app.service.ts:53-55 | `29.02.yyyy` is accepted exactly when the year is divisible by 4 and is not a century year unless divisible by 400 |
| Dates.AcceptsLeapDay | src/app.service.ts:53-55 | `29.02.2000` is accepted as 29 February 2000 |
| Dates.RejectsWrongShape | src/app.service.ts:53-55 | a one-digit day and slash separators are rejected |
| Dates.UserDateCharacters | src/app.service.ts:133-134 | an accepted date holds only digits and dots, so it never contains the payload separator `_` |
| Strings.Split | src/app.service.ts:32 | splitting gives at least one piece, no piece holds the separator, and joining the pieces with it rebuilds the input |
| Strings.SplitAfter | src/app.service.ts:32 | a separator-free prefix followed by the separator is split off as the first piece |
| Strings.Trim | src/app.service.ts:119 | trim removes exactly the white space before the first and after the last non-space character |
| Strings.TrimIdempotent | src/app.service.ts:119 | trimming a trimmed text changes nothing |
| Strings.RemoveAll | src/app.service.ts:75 | deleting a character leaves no occurrence of it and keeps every other character present |
| Strings.RemoveAllAppend | src/app.service.ts:75 | deletion distributes over concatenation, so the kept characters stay in order |
| Payload.Decode | src/app.service.ts:32-34 | the mode is full if and only if the payload is `full` or starts with `full_`; a date part exists if and only if the payload holds `_` |
| Payload.DecodeEncode | src/app.service.ts:133-134 | decoding a button's payload gives back the mode and the date it was built from |
| Payload.DecodeIgnoresExtraPieces | src/app.service.ts:32 | the date is the second `_`-piece; anything after a second `_` is ignored, and the first piece alone chooses the mode |
| Dom.Select | src/app.service.ts:79 | every node a selector picks is an element with the selector's tag |
| Dom.SelectIsFilteredWalk | src/app.service.ts:79 | a selector picks exactly the elements that match it where they stand, all of them, in document order: the walk over every element filtered by the selector |
| Dom.LaterWithinSection | src/app.service.ts:118 | the commentary paragraphs are an in-order selection of the section paragraphs |
| Extract.PageTitle | src/app.service.ts:75 | the title is the first section paragraph's text with every stress mark removed and only white space cut off at both ends, between asterisks; what is inside has no stress mark and no white space at either end; `**` when the page has no section paragraph |
| Extract.PageTitleOfCleanText | src/app.service.ts:75 | a first section paragraph whose text has no stress mark and no surrounding white space becomes the title unchanged between asterisks |
| Extract.ReadingTextLines | src/app.service.ts:88-108 | the reading text is one line per reading unit (its own text, then its links) joined by line breaks, without a final break |
| Extract.DropLastBreak | src/app.service.ts:108 | dropping the last segment removes exactly the final line break the last unit ends with |
| Extract.FoldLastWins | src/app.service.ts:82-112 | folding a group's children, the last `b` child sets the title and the last other child sets the content |
| Extract.GroupEntryLastWins | src/app.service.ts:79-114 | a group entry is its last bold title and its last content, each `undefined` when absent |
| Extract.Paragraphs | src/app.service.ts:118-119 | the i-th commentary paragraph is the trimmed text of the i-th later section paragraph, so none has surrounding white space |
| Budget.Admit | src/app.service.ts:117-126 | the admitted items are the original items followed by an in-order selection of the candidates |
| Budget.AdmitLast | src/app.service.ts:121-125 | each paragraph is appended exactly when it fits against the items accepted before it |
| Budget.RejectedDoesNotBlock | src/app.service.ts:117-126 | a paragraph that does not fit changes nothing for the paragraphs after it |
| Budget.AdmitBound | src/app.service.ts:121-129 | once a paragraph has been admitted, the joined text is below 4000 characters |
| Budget.AdmitLoop | src/app.service.ts:117-126 | the loop with a running length counter admits the same paragraphs as the definition |
| Budget.SkipExample | src/app.service.ts:121-125 | with a 100-character base and paragraphs of 100, 3950 and 200 characters, the first and third are kept |
| Service.PageItems | src/app.service.ts:71-129 | items are header, title and one entry per group in order; short mode renders exactly those; full mode renders exactly what the budget admits of the commentary paragraphs after them, an in-order selection that keeps the text below 4000 characters when it adds any |
| Service.ParsePage | src/app.service.ts:51-138 | an invalid date is rejected before any fetch; a valid one fails if and only if the fetch reports an error with a status other than 200; a reply shows the date as typed and carries buttons built from it |
| Service.OnCallback | src/app.service.ts:31-36 | a payload without `_` has no date and is rejected |
| Service.PayloadReplays | src/app.service.ts:31-36 | the payload a mode button carries for an accepted date asks for that date in that mode |
| Service.ButtonsReplay | src/app.service.ts:131-134 | pressing either mode button of a reply gives what requesting that date in that mode gives |

## Left out

- **Bot wiring is not modelled.** This covers the Telegraf setup, the `/start` greeting, polling,
  replying, editing, answering the callback and the error logger (`src/app.service.ts:11-50`). It is
  I/O at the messaging boundary.
- **The text-message handler is not modelled** (`src/app.service.ts:23-29`). It is `ParsePage` on the
  message text with the configured default mode, and every rejection turns into the help message.
- **`src/app.controller.ts` is not modelled.** It only starts the bot.
- **Asynchrony is not modelled.**
  - The promise, the request callback and their ordering become one pure function.
  - The site is a parameter `site: string -> Response`.
  - After `reject()` on an invalid date the source does not return. It still fetches the address
    for `Invalid DateTime`, but the promise stays rejected. The model stops at the rejection.
- **A transport error with no response object is not modelled.** The source then reads
  `statusCode` of an undefined response and throws inside the callback. The model always has a
  response.
- **The failure kinds exist only in the model.** The source rejects with no reason. `InvalidDateFormat`
  and `TransportError` distinguish the two rejection paths. The bot answers both the same way.
- **HTML is an abstract tree.**
  - Parsing HTML, cheerio's `normalizeWhitespace` and entity decoding are not modelled.
  - `.text()` is the concatenation of the descendant text nodes.
  - Only the four selectors the service uses are modelled.
- **Luxon is replaced by its behaviour on these two layouts.**
  - `dd` and `MM` read exactly two ASCII digits and `yyyy` exactly four.
  - Years range from 0 to 9999.
  - Time zones and locales are not modelled.
- **The keyboard layout is not modelled** (`src/app.service.ts:131-136`). This covers the two-column
  arrangement, the Markdown parse mode and the disabled link preview, which are serialisation
  details of the client library.
- **Lengths are counted in characters.** JavaScript counts UTF-16 code units, so a character outside
  the Basic Multilingual Plane counts once here and twice in the source. The page text is Cyrillic
  and Latin, which is inside that plane.
- **The reading text is computed once per document.** The source recomputes it for every `chten`
  child of every group. It is the same document-wide query each time, so the result is the same.
- Service.OnCallback: its contract only states the rejection of a payload without `_`. What a
  well-formed payload gives is stated by `Payload.Decode`, `Payload.DecodeIgnoresExtraPieces` and
  `Service.ButtonsReplay`.
