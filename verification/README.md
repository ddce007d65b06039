# Citation engine of a reveal.js BibTeX plugin, and a CSV reader

This project models, in Dafny, the core of the `bibtexCite` reveal.js plugin
(`plugin/my_plugin/bibtex-cite.js`) and proves properties of that model. The
plugin reads a BibTeX file and numbers every citation key in order of first
appearance in the slides. It replaces each `data-cite` marker with a
superscript of numbers and writes a short "n. Author (Year)" line into each
slide's citation bar. Finally it fills a sources slide with the bibliography,
sorted by number. The project also models `parseCSV` of the wind
visualisation (`presentations/202601_Master_Kolloquium/js/wind-visualization.js`).

Modules and files:

- `wrappers.dfy`: `Wrappers`, the `Option` type.
- `text.dfy`: `Text`, the string operations of the JavaScript engine that the
  code relies on:
  - `\s` white space and `trim()`;
  - ASCII `toLowerCase()`;
  - `split` on a one-character class, and `join`;
  - the decimal rendering of a number in a template string;
  - property assignment on a plain object, where the name `__proto__` is
    not stored.
- `bibparse.dfy`: `BibParse`, the BibTeX parser `parseBibTeX`:
  - the two comment-stripping regular expressions;
  - the entry regular expression `@(\w+)\s*{\s*([^,\s]+)\s*,([\s\S]*?)\n}\s*`;
  - the hand-written field loop, with braced, quoted and bare values;
  - the `Map` of entries.
- `bibparse_laws.dfy`: `BibParseLaws`, lemmas stating what the parser
  produces for given shapes of input.
- `format.dfy`: `CiteFormat`, the text-producing functions:
  - `splitKeys`, `normalizeDoi`, `formatAuthors` and `formatShort`;
  - the messages table and `t`;
  - the pieces (`Text`/`Link`) that `formatEntryNodes` appends.
- `numbering.dfy`: `Numbering`, the `keyToNumber` map and `counter`.
- `render.dfy`: `Render`, the plugin's `init` over a deck given as plain data:
  - the discovery pass;
  - the rewrite pass, covering `replaceCiteNode` and `fillCitationBarInSlide`;
  - the stable sort by number, and the bibliography items.
- `csv.dfy`: `WindCsv`, `parseCSV` and a round trip for well-formed tables.

The two JavaScript regular expressions that strip comments, and the lazy
entry regular expression, are written as explicit scanners. Each scanner
returns the length of the match at the start of the remaining text. Maps
model JavaScript objects and `Map`s.

### Where the code and its own comments or documentation differ

The model follows the code in each case:

- **Citation-bar entries.** The comment at `bibtex-cite.js:221` says an
  entry reads "Author, Year". The code writes `Author (Year)`. The fallback
  for a key without an entry is `Unknown, n.d.`.
- **Quoted values.** A quoted value skips the character after a backslash
  but keeps the backslash: `"A \"B\" C"` gives `A \"B\" C`.
- **Braces removed after trimming.** Values are trimmed before braces are
  removed. So a quoted `"{ A }"` or a doubly braced `{{ A }}` gives ` A `,
  which is not trimmed. A singly braced `{ A }` gives `A`, because the braces
  are taken off when the value is read.
- **Unterminated braces.** A braced value that is never closed loses its
  last character, because of `slice(start, i - 1)`.
- **Fields after an error.** When the field loop meets a character that
  cannot start a field name, it stops. The fields after that point are
  lost, not skipped over.
- **Entry keys.** The `trim()` of an entry key never changes it, because the
  regular expression already excludes white space.

## Model

| member | source | states |
|---|---|---|
| Text.Trim | plugin/my_plugin/bibtex-cite.js:69 | `trim()` leaves no white space at either end and keeps the interior: the result is a stretch of the text with only white space before and after it; it is empty exactly when the text is all white space; it leaves trimmed text unchanged |
| Text.JoinSplit | plugin/my_plugin/bibtex-cite.js:87 | splitting at a separator and joining the pieces with it gives back the text, so `split` neither loses nor adds characters |
| Text.SplitJoin | presentations/202601_Master_Kolloquium/js/wind-visualization.js:114 | splitting the join of separator-free pieces gives back exactly those pieces |
| Text.Split | plugin/my_plugin/bibtex-cite.js:87 | `split` on a separator class yields one more piece than there are separators, and no piece contains a separator |
| Text.SplitAtSep | plugin/my_plugin/bibtex-cite.js:87 | a separator splits a text into the pieces before it followed by the pieces after it |
| Text.JoinLength | plugin/my_plugin/bibtex-cite.js:155-157 | a join holds every part and one separator between each two parts, so its length is the parts' total plus one separator fewer than there are parts; no parts give "" |
| Text.TrimNonEmpty | plugin/my_plugin/bibtex-cite.js:88-89 | `map(trim).filter(Boolean)` keeps only non-empty trimmed pieces, never more than it was given |
| Text.TrimPadded | plugin/my_plugin/bibtex-cite.js:88 | white space in front of a trimmed, non-empty text is removed by trimming and nothing else is |
| Text.TrimNonEmptyOne | plugin/my_plugin/bibtex-cite.js:88-89 | a single piece is dropped when it is blank and trimmed otherwise |
| Text.TrimNonEmptyAppend | plugin/my_plugin/bibtex-cite.js:88-89 | trimming and dropping blank pieces works piece by piece, so it distributes over concatenation |
| Text.NatToString | plugin/my_plugin/bibtex-cite.js:222 | the numeral a template string shows for a number is non-empty, all digits, and has no leading zero |
| Text.Lower | plugin/my_plugin/bibtex-cite.js:32 | `toLowerCase` keeps the length and lowers each character on its own |
| Text.RemoveBraces | plugin/my_plugin/bibtex-cite.js:71 | `replace(/[{}]/g, "")` leaves no brace, keeps brace-free text as it is, and only drops characters |
| Text.RemoveBracesChar | plugin/my_plugin/bibtex-cite.js:71 | a single brace is removed, and any other single character is kept |
| Text.RemoveBracesAppend | plugin/my_plugin/bibtex-cite.js:71 | brace removal works piece by piece over a concatenation, so with the single-character cases only braces go and the rest keeps its order |
| Text.ParseNatToString | plugin/my_plugin/bibtex-cite.js:247 | the decimal numeral a template string shows for a number reads back as that number |
| Text.SetProperty | plugin/my_plugin/bibtex-cite.js:72 | assigning a property stores the value under its name, except for `__proto__`, which is ignored; every other property keeps its value |
| BibParse.PercentLineLen | plugin/my_plugin/bibtex-cite.js:7 | a match of `^\s*%.*$` lies inside the text and exists only where the text contains `%` |
| BibParse.StripPercentLines | plugin/my_plugin/bibtex-cite.js:7 | removing `%` comment lines only drops characters, and text without `%` is unchanged |
| BibParse.CommentBlockLen | plugin/my_plugin/bibtex-cite.js:8 | a match of `@comment\s*{[^}]*}` lies inside the text, starts with `@comment` in any case, and ends at the first `}` after the keyword |
| BibParse.StripCommentBlocks | plugin/my_plugin/bibtex-cite.js:8 | removing `@comment{...}` blocks only drops characters, and text without `@` is unchanged |
| BibParse.StripComments | plugin/my_plugin/bibtex-cite.js:6-8 | comment stripping never introduces a character |
| BibParse.CloserFrom | plugin/my_plugin/bibtex-cite.js:13 | the lazy body `([\s\S]*?)\n}` ends at the first "\n}" at or after its start, and at none when there is no such pair |
| BibParse.LowerWord | plugin/my_plugin/bibtex-cite.js:16 | a lower-cased `\w+` type is non-empty and uses only lower-case letters, digits and `_` |
| BibParse.KeyAndComma | plugin/my_plugin/bibtex-cite.js:13 | `\s*([^,\s]+)\s*,` yields a non-empty key without commas or white space, and a length inside the text |
| BibParse.KeyIsTrimmed | plugin/my_plugin/bibtex-cite.js:17 | `trim()` of a matched key is the key itself |
| BibParse.MatchHead | plugin/my_plugin/bibtex-cite.js:13 | the head `@(\w+)\s*{\s*([^,\s]+)\s*,` matches only at `@`, with a lower-cased type, a well-formed key and a length inside the text |
| BibParse.MatchEntryAt | plugin/my_plugin/bibtex-cite.js:13-18 | a match of the entry expression starts at `@`, has a well-formed type and key, and does not run past the text |
| BibParse.Matches | plugin/my_plugin/bibtex-cite.js:15 | every match the `exec` loop finds has a well-formed type and key |
| BibParse.NameLen | plugin/my_plugin/bibtex-cite.js:30 | `^[a-zA-Z_][a-zA-Z0-9_\-]*` matches only name characters, and matches nothing exactly when the text is empty or does not start with a name character |
| BibParse.LowerName | plugin/my_plugin/bibtex-cite.js:32 | a lower-cased name starts with a lower-case letter or `_` and uses only lower-case word characters and `-` |
| BibParse.BracedLen | plugin/my_plugin/bibtex-cite.js:46-50 | the brace scan never runs past the text, and while a brace is open it consumes at least one character of a non-empty text |
| BibParse.QuotedLen | plugin/my_plugin/bibtex-cite.js:55-59 | the quoted scan stops at a closing quote, or at the end of the text |
| BibParse.ReadValue | plugin/my_plugin/bibtex-cite.js:40-67 | reading a value consumes part of the text, or else reads nothing and leaves the text as it is |
| BibParse.AfterValue | plugin/my_plugin/bibtex-cite.js:74-76 | what follows a value is a suffix of the text: the skip passes only characters other than `,` and line break and then steps over one `,`, or else stops at a line break or the end |
| BibParse.CleanValue | plugin/my_plugin/bibtex-cite.js:69-71 | a cleaned value has no brace, and trimmed brace-free text is kept as it is |
| BibParse.FieldStep | plugin/my_plugin/bibtex-cite.js:24-77 | one pass of the field loop assigns a lower-cased field name a brace-free value and strictly shortens the rest of the body |
| BibParse.Assignments | plugin/my_plugin/bibtex-cite.js:24-77 | every assignment of the field loop has a valid field name and a brace-free value |
| BibParse.StoreAllValid | plugin/my_plugin/bibtex-cite.js:72 | performing the field loop's assignments keeps the field object well formed |
| BibParse.StoreAll | plugin/my_plugin/bibtex-cite.js:72 | assigning properties never removes one, and `__proto__` is never stored |
| BibParse.Fields | plugin/my_plugin/bibtex-cite.js:20-77 | an entry's field object holds only lower-cased field names other than `__proto__`, with brace-free values |
| BibParse.EntryOf | plugin/my_plugin/bibtex-cite.js:79 | the stored record carries the matched key and type and well-formed fields |
| BibParse.Collect | plugin/my_plugin/bibtex-cite.js:79 | `entries.set` for each match keeps every record filed under its own key |
| BibParse.ParseBibTeX | plugin/my_plugin/bibtex-cite.js:4-83 | the parsed store files each record under its own key, with a well-formed key, type and field object |
| BibParseLaws.BracedValue | plugin/my_plugin/bibtex-cite.js:41-51 | a braced value with balanced inner braces is read up to its matching close brace, and the text after it is left |
| BibParseLaws.BracedLenAppend | plugin/my_plugin/bibtex-cite.js:46-50 | over a prefix that keeps the brace open, the scan consumes the whole prefix and goes on at the depth the prefix leaves |
| BibParseLaws.NestedBraces | plugin/my_plugin/bibtex-cite.js:41-71 | inner braces nest, so `{a{b}c}` is read whole, and brace removal then gives `abc` |
| BibParseLaws.UnterminatedBraceDropsLastChar | plugin/my_plugin/bibtex-cite.js:46-51 | a brace that is never closed takes the rest of the body except its last character |
| BibParseLaws.QuotedValue | plugin/my_plugin/bibtex-cite.js:52-61 | a quoted value whose inside is a sequence of units (a character other than `"` and `\`, or `\` and any character) is read up to the closing quote, keeping the backslashes |
| BibParseLaws.UnterminatedQuoteRunsToEnd | plugin/my_plugin/bibtex-cite.js:55-61 | a quote that is never closed takes the rest of the body, a dangling backslash at the end included |
| BibParseLaws.QuotedLenBody | plugin/my_plugin/bibtex-cite.js:55-59 | the quoted scan passes over such units one by one, a backslash taking the next character with it, and then goes on in what follows |
| BibParseLaws.EscapeQuotedBody | plugin/my_plugin/bibtex-cite.js:57 | escaping every `"` and `\` of a text with a backslash gives such a sequence of units |
| BibParseLaws.EscapeLength | plugin/my_plugin/bibtex-cite.js:57 | escaping adds exactly one backslash per quote or backslash |
| BibParseLaws.BareValue | plugin/my_plugin/bibtex-cite.js:62-67 | a bare value runs up to the next comma or line break |
| BibParseLaws.CleanTrimmed | plugin/my_plugin/bibtex-cite.js:69-71 | on a trimmed value, cleaning only removes braces |
| BibParseLaws.CleanValueNotTrimmed | plugin/my_plugin/bibtex-cite.js:69-71 | braces are removed after trimming, so white space inside the braces survives in the value |
| BibParseLaws.FieldStepOf | plugin/my_plugin/bibtex-cite.js:26-76 | `name = value,` assigns the lower-cased name the cleaned value and continues after the comma |
| BibParseLaws.BracedFieldStep | plugin/my_plugin/bibtex-cite.js:24-77 | `name = {v},` assigns the lower-cased name the cleaned `v` and continues after the comma |
| BibParseLaws.BracedFieldFirst | plugin/my_plugin/bibtex-cite.js:24-77 | the assignments of a body starting with `name = {v},` are that assignment followed by those of the rest |
| BibParseLaws.NoFieldAt | plugin/my_plugin/bibtex-cite.js:29-31 | the field loop stops at a character that cannot start a name |
| BibParseLaws.FieldsKeptBeforeStop | plugin/my_plugin/bibtex-cite.js:29-31 | fields read before such a character are kept, and everything after it is ignored |
| BibParseLaws.StoreAllLast | plugin/my_plugin/bibtex-cite.js:72 | after a series of assignments, a name holds the value of its last assignment, or its earlier value when it was never assigned |
| BibParseLaws.LastFieldWins | plugin/my_plugin/bibtex-cite.js:72 | a field name is present exactly when it is assigned and is not `__proto__`, and it holds the value of its last assignment |
| BibParseLaws.CollectLast | plugin/my_plugin/bibtex-cite.js:79 | after a series of `entries.set`, a key holds the record of its last match, or its earlier record when it never matched |
| BibParseLaws.LastEntryWins | plugin/my_plugin/bibtex-cite.js:15-79 | a key is in the store exactly when some entry matches it, and a repeated key keeps its last record |
| BibParseLaws.MatchesWithoutAt | plugin/my_plugin/bibtex-cite.js:15 | text without `@` yields no match |
| BibParseLaws.NoEntriesWithoutAt | plugin/my_plugin/bibtex-cite.js:4-83 | a text without `@` parses to an empty store |
| BibParseLaws.EntryMatchOf | plugin/my_plugin/bibtex-cite.js:13-18 | `@type{key,body\n}`, with any white space before and after the `{` and before the comma, matches with the lower-cased type, the key and the body, and the match runs over the whole entry and the white space after it |
| BibParseLaws.BodyEnd | plugin/my_plugin/bibtex-cite.js:13 | a body without "\n}" ends at the "\n}" that follows it |
| BibParseLaws.PercentLineRemoved | plugin/my_plugin/bibtex-cite.js:7 | a line whose first non-blank character is `%` is removed up to its line break, and the line break stays |
| BibParseLaws.PercentLineLenOf | plugin/my_plugin/bibtex-cite.js:7 | the comment match covers the leading blanks, the `%` and the rest of the line |
| BibParseLaws.PercentMidLineKept | plugin/my_plugin/bibtex-cite.js:7 | a `%` after other characters on a line is not a comment |
| BibParseLaws.CommentBlockRemoved | plugin/my_plugin/bibtex-cite.js:8 | an `@comment` block, with its keyword in any case and any white space before its `{`, is removed whole up to its first `}` |
| CiteFormat.SplitKeys | plugin/my_plugin/bibtex-cite.js:85-90 | the keys of a marker are non-empty, trimmed and free of `,` and `;`, and no more than the pieces between separators |
| CiteFormat.SplitKeysJoin | plugin/my_plugin/bibtex-cite.js:85-90 | keys joined with `,` or `;` split back into exactly those keys |
| CiteFormat.SplitKeysBlank | plugin/my_plugin/bibtex-cite.js:85-90 | a marker of only separators and white space names no key |
| CiteFormat.SplitKeysParts | plugin/my_plugin/bibtex-cite.js:85-90 | separator-free pieces joined with `,` or `;` split back into those pieces trimmed, with the blank ones dropped |
| CiteFormat.SplitKeysAtSep | plugin/my_plugin/bibtex-cite.js:85-90 | a `,` or `;` divides the keys: those of the text before it, then those of the text after it |
| CiteFormat.PaddedOneKey | plugin/my_plugin/bibtex-cite.js:85-90 | a well-formed key behind white space splits into exactly that key |
| CiteFormat.PaddedJoin | plugin/my_plugin/bibtex-cite.js:85-90 | well-formed keys joined by ", ", behind any white space, split back into exactly those keys, in order; no keys give the empty list |
| CiteFormat.SplitKeysPiece | plugin/my_plugin/bibtex-cite.js:85-90 | a text without a separator gives no key when it is blank and its trimmed self otherwise |
| CiteFormat.PaddedKey | plugin/my_plugin/bibtex-cite.js:85-90 | a one-character key with white space around it is that key alone |
| CiteFormat.SplitKeysPadded | plugin/my_plugin/bibtex-cite.js:85-90 | "a, b" holds the keys "a" and "b" |
| CiteFormat.SplitKeysTrailing | plugin/my_plugin/bibtex-cite.js:85-90 | "a;" holds the one key "a" |
| CiteFormat.LeadingSeparator | plugin/my_plugin/bibtex-cite.js:85-90 | ",b" holds the one key "b" |
| CiteFormat.SplitKeysDoubled | plugin/my_plugin/bibtex-cite.js:85-90 | "a,,b" holds the keys "a" and "b" |
| CiteFormat.NormalizeDoi | plugin/my_plugin/bibtex-cite.js:101-106 | a DOI becomes "" when blank; it is kept when it is already an http(s) address; otherwise it is prefixed with `https://doi.org/`. The result is trimmed |
| CiteFormat.NormalizeDoiIdempotent | plugin/my_plugin/bibtex-cite.js:101-106 | normalising a normalised DOI changes nothing |
| CiteFormat.NormalizeBareDoi | plugin/my_plugin/bibtex-cite.js:105 | a bare DOI is resolved through `https://doi.org/` |
| CiteFormat.SepLenOf | plugin/my_plugin/bibtex-cite.js:115 | `\s+and\s+` matches "and" in any case between runs of white space, swallowing all of them |
| CiteFormat.SplitAnd | plugin/my_plugin/bibtex-cite.js:115 | `split(/\s+and\s+/i)` gives at least one piece |
| CiteFormat.SplitAndJoin | plugin/my_plugin/bibtex-cite.js:115 | author names joined with " and " split back into exactly those names |
| CiteFormat.SplitAndAlone | plugin/my_plugin/bibtex-cite.js:115 | a name with no " and " is a single piece |
| CiteFormat.SplitSpaces | plugin/my_plugin/bibtex-cite.js:119 | `split(/\s+/)` gives at least one piece; a single piece is the whole text, and with several the last is shorter than the text |
| CiteFormat.LastPieceIsLastWord | plugin/my_plugin/bibtex-cite.js:119 | the last piece of `split(/\s+/)` is the text's final run without white space, and it is empty when the text ends in white space |
| CiteFormat.LastName | plugin/my_plugin/bibtex-cite.js:119 | without a comma, the last name is the final whitespace-separated word |
| CiteFormat.LastNameComma | plugin/my_plugin/bibtex-cite.js:119 | in "Family, Given" the last name is the trimmed family part |
| CiteFormat.FormatAuthors | plugin/my_plugin/bibtex-cite.js:114-116 | an empty or blank author field gives "" |
| CiteFormat.AuthorLaw | plugin/my_plugin/bibtex-cite.js:113-127 | zero, one, two, or three or more authors give "", the last name, "A & B", and "A et al." |
| CiteFormat.SplitAndBlank | plugin/my_plugin/bibtex-cite.js:115-116 | a blank author field yields no names |
| CiteFormat.FormatShort | plugin/my_plugin/bibtex-cite.js:129-135 | a missing record gives "Unknown, n.d."; a present one gives a text ending in ")" |
| CiteFormat.ShortNoAuthor | plugin/my_plugin/bibtex-cite.js:129-135 | a record whose author field is missing or blank gives "Unknown (Year)", or "Unknown (n.d.)" when the year is missing or empty |
| CiteFormat.ShortOfAuthors | plugin/my_plugin/bibtex-cite.js:113-135 | one, two, or three or more authors give "Last (Year)", "Last1 & Last2 (Year)" and "Last1 et al. (Year)", with "n.d." for a missing or empty year; a single name with an empty family part gives "Unknown" |
| CiteFormat.Message | plugin/my_plugin/bibtex-cite.js:290-301 | every message in the table is non-empty |
| CiteFormat.T | plugin/my_plugin/bibtex-cite.js:303-305 | the text for a non-empty key is non-empty |
| CiteFormat.MessageTables | plugin/my_plugin/bibtex-cite.js:290-305 | `t` finds a message exactly for the three known keys, and returns an unknown key itself |
| CiteFormat.Compact | plugin/my_plugin/bibtex-cite.js:155-157 | `filter(Boolean)` keeps only non-empty parts, and a list without empty parts as it is |
| CiteFormat.JoinCompactPair | plugin/my_plugin/bibtex-cite.js:155-157 | joining the non-empty parts of a pair gives one part alone, or both around the separator |
| CiteFormat.FirstNonEmpty | plugin/my_plugin/bibtex-cite.js:148 | the container, the first non-empty of journal, booktitle and publisher, is empty exactly when all three are |
| CiteFormat.FirstNonEmptyIs | plugin/my_plugin/bibtex-cite.js:148 | the container is the first of journal, booktitle and publisher that is non-empty |
| CiteFormat.BaseText | plugin/my_plugin/bibtex-cite.js:154-157 | the base text is empty exactly when authors, year, title and container all are |
| CiteFormat.BaseTextFull | plugin/my_plugin/bibtex-cite.js:154-157 | with authors, year, title and container all present, the base text is "Authors, Year — Title. Container" |
| CiteFormat.BaseTextEmpty | plugin/my_plugin/bibtex-cite.js:154-157 | a record with none of those fields has an empty base text |
| CiteFormat.LinkThen | plugin/my_plugin/bibtex-cite.js:171-178 | the link is labelled with its own address and followed by at most one text note |
| CiteFormat.Reference | plugin/my_plugin/bibtex-cite.js:161-182 | what follows the base text is nothing, or a lead text and a self-labelled link, and then possibly a note |
| CiteFormat.LongForm | plugin/my_plugin/bibtex-cite.js:137-183 | a missing record renders "Unknown source"; otherwise the base text comes first, followed by no link or one self-labelled link |
| CiteFormat.DoiWins | plugin/my_plugin/bibtex-cite.js:162-167 | with a DOI present, the entry links to the normalised DOI, and the URL is ignored |
| CiteFormat.UrlWithDate | plugin/my_plugin/bibtex-cite.js:170-175 | without a DOI, a URL with an access date links to the trimmed URL and names the date |
| CiteFormat.UrlWithoutDate | plugin/my_plugin/bibtex-cite.js:176-178 | without a DOI, a URL without an access date is followed by the "missing urldate" note |
| CiteFormat.UrlPieces | plugin/my_plugin/bibtex-cite.js:170-180 | without a DOI, a URL gives the base text, ". ", the link and the access note |
| CiteFormat.NoLink | plugin/my_plugin/bibtex-cite.js:180-182 | with neither DOI nor URL, only the base text is shown |
| Numbering.Ensure | plugin/my_plugin/bibtex-cite.js:362-364 | a new key gets the next number and goes last in the order; a known key changes nothing; no existing number changes |
| Numbering.EnsureAll | plugin/my_plugin/bibtex-cite.js:361-365 | after a marker's keys are ensured, all of them have numbers and earlier numbers are unchanged |
| Numbering.EnsureAllKnown | plugin/my_plugin/bibtex-cite.js:379-380 | the rewrite pass's fallback numbering changes nothing when every key is already numbered |
| Numbering.DedupFrom | plugin/my_plugin/bibtex-cite.js:381-384 | the `used` list extends what it held, and holds exactly the keys seen |
| Numbering.DedupFromAppend | plugin/my_plugin/bibtex-cite.js:375-385 | collecting used keys marker by marker is collecting them over the whole slide |
| Numbering.DedupFromOrder | plugin/my_plugin/bibtex-cite.js:381-384 | the keys collected come in the order of their first occurrence |
| Numbering.Dedup | plugin/my_plugin/bibtex-cite.js:372-385 | a slide's used list holds each of its keys exactly once |
| Numbering.DedupFirstUse | plugin/my_plugin/bibtex-cite.js:381-384 | the used list is in order of first use |
| Numbering.EnsureAllOrder | plugin/my_plugin/bibtex-cite.js:357-367 | numbering a list of keys registers exactly its new keys, in order of first appearance |
| Numbering.FirstAppearance | plugin/my_plugin/bibtex-cite.js:348-367 | one key gets a smaller number than another exactly when it first appears earlier |
| Numbering.NumbersConsecutive | plugin/my_plugin/bibtex-cite.js:351-363 | numbers run from 1 to the number of keys, and no two keys share one |
| Render.Discover | plugin/my_plugin/bibtex-cite.js:348-367 | the discovery pass numbers every key of every eligible slide |
| Render.EligibleOnly | plugin/my_plugin/bibtex-cite.js:354 | the filter keeps only slides that are neither stacks nor hidden, and never more slides than it was given |
| Render.IneligibleSkipped | plugin/my_plugin/bibtex-cite.js:354 | the keys of a deck and its rewrite pass are those of its eligible slides alone, so stacks and hidden slides are skipped |
| Render.Numbers | plugin/my_plugin/bibtex-cite.js:243 | there are no more numbers than keys, and when every key is numbered (the only case `init` reaches) each key's number appears, in the marker's order |
| Render.NumbersOne | plugin/my_plugin/bibtex-cite.js:243 | a single key gives its number when it has one and nothing when it has none |
| Render.NumbersAppend | plugin/my_plugin/bibtex-cite.js:243 | numbers are taken key by key, so the numbers of a concatenation are the numbers of the parts, concatenated |
| Render.SupOf | plugin/my_plugin/bibtex-cite.js:237-252 | when brackets are configured the numbers sit inside one pair of brackets; otherwise the text holds no bracket at all; a tooltip is added exactly when configured; its content is stated by `Render.TooltipReadsBack` |
| Render.TooltipReadsBack | plugin/my_plugin/bibtex-cite.js:249-251 | the tooltip joins the marker's keys with ", "; splitting it again gives back exactly the marker's keys, in order |
| Render.SupReadsBack | plugin/my_plugin/bibtex-cite.js:243-247 | the superscript's comma-separated numerals read back as the keys' numbers, one per key, in order |
| Render.Lookup | plugin/my_plugin/bibtex-cite.js:220 | `keyToEntry.get` finds a record exactly for keys in the store |
| Render.NumberText | plugin/my_plugin/bibtex-cite.js:218-222 | a numbered key shows a decimal numeral that reads back as its number, and a key without one shows "undefined" |
| Render.BarParts | plugin/my_plugin/bibtex-cite.js:218-223 | each used key gives one part "number. short form", in the order of use |
| Render.BarText | plugin/my_plugin/bibtex-cite.js:211-225 | a bar line is written exactly when the slide has a bar and cites at least one key |
| Render.BarNumbered | plugin/my_plugin/bibtex-cite.js:218-223 | each part starts with the key's number, and shows "Unknown, n.d." exactly for keys missing from the store |
| Render.RewriteMarkers | plugin/my_plugin/bibtex-cite.js:375-388 | each marker of a slide becomes one superscript, and the numbering stays well formed |
| Render.RewriteSlide | plugin/my_plugin/bibtex-cite.js:370-391 | rewriting a slide keeps the numbering well formed |
| Render.RewriteAll | plugin/my_plugin/bibtex-cite.js:369-391 | the rewrite pass keeps the numbering well formed and produces one output per eligible slide; which output belongs to which slide is stated by `Render.RewriteAllSlides` |
| Render.SlideKnown | plugin/my_plugin/bibtex-cite.js:370-391 | a slide whose keys are all numbered leaves the registry alone and is rewritten to its superscripts, one per marker, and its bar of distinct keys in first-use order |
| Render.RewriteAllStep | plugin/my_plugin/bibtex-cite.js:354-391 | after the discovery pass, the rewrite pass handles the first slide (skipped unless eligible) and then the rest with the same registry |
| Render.RewriteAllNumbered | plugin/my_plugin/bibtex-cite.js:354-391 | after the discovery pass, the rewrite pass's outputs are the numbered rewrites of the eligible slides, in deck order |
| Render.NumberedSlidesAt | plugin/my_plugin/bibtex-cite.js:369 | the i-th numbered rewrite is that of the i-th slide |
| Render.RewriteAllSlides | plugin/my_plugin/bibtex-cite.js:369-391 | after the discovery pass, output i belongs to eligible slide i: one superscript per marker showing that marker's numbers, and a bar listing the slide's distinct keys in first-use order |
| Render.RewriteMarkersKnown | plugin/my_plugin/bibtex-cite.js:375-385 | with all keys numbered, the markers leave the numbering alone and collect the slide's keys in first-use order |
| Render.RewriteMarkersSups | plugin/my_plugin/bibtex-cite.js:375-388 | with all keys numbered, the j-th superscript shows the j-th marker's numbers |
| Render.RewriteKeepsNumbers | plugin/my_plugin/bibtex-cite.js:369-391 | after the discovery pass, the rewrite pass neither adds a key nor changes a number |
| Render.SlideBar | plugin/my_plugin/bibtex-cite.js:370-391 | a slide's bar lists its distinct keys in first-use order, with their global numbers, exactly when it has a bar and cites something |
| Render.Entries | plugin/my_plugin/bibtex-cite.js:400 | `keyToNumber.entries()` lists the keys in insertion order, each with its number |
| Render.InsertByNumber | plugin/my_plugin/bibtex-cite.js:400 | inserting into a list sorted by number keeps it sorted and adds one element |
| Render.InsertByNumberPermutes | plugin/my_plugin/bibtex-cite.js:400 | inserting adds exactly the one element |
| Render.SortByNumber | plugin/my_plugin/bibtex-cite.js:400 | sorting by number gives a list sorted by number, of the same length |
| Render.SortByNumberPermutes | plugin/my_plugin/bibtex-cite.js:400 | the sort neither loses nor invents an entry |
| Render.SortSortedIdentity | plugin/my_plugin/bibtex-cite.js:400 | the sort leaves a sorted list as it is |
| Render.ItemOf | plugin/my_plugin/bibtex-cite.js:401-413 | an item has the id prefix plus the key, starts with "n. ", shows the long form of a present record, and for a missing record shows "Unknown source" and the missing-record note |
| Render.Bibliography | plugin/my_plugin/bibtex-cite.js:393-398 | a bibliography is written exactly when a sources section exists or may be created |
| Render.BibliographyOrder | plugin/my_plugin/bibtex-cite.js:399-416 | the bibliography lists every numbered key once, the i-th item being the key numbered i + 1 with matching id and "i+1. " |
| Render.MissingNoteExactly | plugin/my_plugin/bibtex-cite.js:406-413 | the missing-record note appears exactly on items whose key the store lacks |
| Render.SourcesHeading | plugin/my_plugin/bibtex-cite.js:341-343 | a created sources slide is headed by the configured title, or by the language's word for "Sources" when none is set |
| Render.Init | plugin/my_plugin/bibtex-cite.js:334-418 | `init` writes one rewritten slide per eligible slide, a new heading exactly when no sources section exists and one may be created, and a bibliography exactly when a sources section exists or may be created; the content of each slide is stated by `Render.InitSlides` |
| Render.InitSlides | plugin/my_plugin/bibtex-cite.js:334-391 | slide i written by `init` is eligible slide i, its superscripts and bar numbered by the discovery pass over the whole deck |
| Render.DefaultBehaviour | plugin/my_plugin/bibtex-cite.js:310-330 | under the default options a superscript is bare and has a tooltip, and a deck without a sources section gets one under the translated title, with items anchored at "src-" and the key |
| Render.InitBibliography | plugin/my_plugin/bibtex-cite.js:346-417 | the bibliography written by `init` lists the distinct keys of the eligible slides in order of first appearance |
| WindCsv.Cell | presentations/202601_Master_Kolloquium/js/wind-visualization.js:117 | `values[index]?.trim()` is the trimmed cell when the line reaches the column, `undefined` otherwise |
| WindCsv.RowUpTo | presentations/202601_Master_Kolloquium/js/wind-visualization.js:116-118 | after the first n columns, the row holds exactly their names, except `__proto__` |
| WindCsv.RowOf | presentations/202601_Master_Kolloquium/js/wind-visualization.js:114-118 | a row holds exactly the column names, except `__proto__` |
| WindCsv.TrimAll | presentations/202601_Master_Kolloquium/js/wind-visualization.js:110 | every column name is trimmed, and none is lost |
| WindCsv.ParseCsv | presentations/202601_Master_Kolloquium/js/wind-visualization.js:108-123 | there is at least one trimmed column name, and one row per line break of the trimmed text |
| WindCsv.RowUpToLastWins | presentations/202601_Master_Kolloquium/js/wind-visualization.js:116-118 | a repeated column name takes the cell of its last occurrence among the columns visited |
| WindCsv.RowLastWins | presentations/202601_Master_Kolloquium/js/wind-visualization.js:116-118 | a repeated column name takes the cell of its last occurrence |
| WindCsv.RowCells | presentations/202601_Master_Kolloquium/js/wind-visualization.js:117 | a column is `undefined` exactly when the line does not reach it, and otherwise holds the trimmed cell |
| WindCsv.RowExtraIgnored | presentations/202601_Master_Kolloquium/js/wind-visualization.js:116-118 | cells beyond the last column do not change the row |
| WindCsv.ParseBlank | presentations/202601_Master_Kolloquium/js/wind-visualization.js:109-110 | a blank text has a single empty column name and no rows |
| WindCsv.LineRoundTrip | presentations/202601_Master_Kolloquium/js/wind-visualization.js:110-114 | a line of well-formed cells splits back into them, and trimming keeps them |
| WindCsv.LinesRoundTrip | presentations/202601_Master_Kolloquium/js/wind-visualization.js:109 | trimming and splitting the text of a well-formed table at "\n" recovers its lines |
| WindCsv.ParseHeaders | presentations/202601_Master_Kolloquium/js/wind-visualization.js:109-110 | the header line of a well-formed table parses back to its column names, with one row per data line |
| WindCsv.ParseRow | presentations/202601_Master_Kolloquium/js/wind-visualization.js:113-119 | each data line of a well-formed table parses back to that line's row |
| WindCsv.ParseFormat | presentations/202601_Master_Kolloquium/js/wind-visualization.js:108-123 | with distinct column names, parsing a table's text gives back every column name and every cell |

## Left out

- Fetching the `.bib` file (`loadBibFile`) and the CSV (`loadCSV`) is I/O. The model starts from the text.
- The DOM is left out. A slide is data: its stack and hidden flags, whether
  it has a citation bar, and its markers' `data-cite` values. This covers
  `collectSlidesInDomOrder`, `isStack`, `isHiddenSlide` and the selectors.
  Out of scope:
  - `ensureSourcesContainer`'s element creation;
  - `replaceWith` versus appending (the `replaceNode` option);
  - `supClass`;
  - the generated `<p>` being reused.
- `makeLink` only builds an anchor element. A link is modelled as a
  `Link(href, text)` piece; `target` and `rel` are left out.
- `getDocLang` reads the page's `lang` attribute. The language is a parameter, `De` or `En`.
- `toLowerCase` is modelled on ASCII only. Case-insensitive regular
  expressions without the `u` flag compare ASCII letters only, and field
  names and entry types are ASCII by their regular expressions.
- The messages table is looked up by the three known keys only. Names that
  a plain object inherits, such as `toString`, are left out.
- `BibParse.Fields`: its own contract gives only the shape of the field
  object. Which value a name holds is stated by `BibParseLaws.LastFieldWins`.
- `BibParse.ParseBibTeX`: its own contract gives only the shape of the
  store. Which record a key holds is stated by `BibParseLaws.LastEntryWins`.
- `CiteFormat.FormatAuthors`: its own contract covers only the blank
  field. The zero, one, two and three-or-more cases are stated by
  `CiteFormat.AuthorLaw`.
- `CiteFormat.SplitKeys`: its own contract gives only the shape of the
  keys. Which keys a marker holds is stated by `CiteFormat.SplitKeysParts`,
  `CiteFormat.SplitKeysAtSep` and `CiteFormat.SplitKeysPiece`.
- `CiteFormat.SplitAnd`: its own contract says only that there is at least
  one piece. The pieces are stated by `CiteFormat.SplitAndJoin`,
  `CiteFormat.SplitAndAlone` and `CiteFormat.SplitAndBlank`.
- `CiteFormat.AuthorLaw`: it is stated for fields that are names joined
  by " and " where each name is trimmed and contains no separator. Fields
  with irregular spacing around "and" are not covered.
- `CiteFormat.FormatShort`: its own contract covers the missing record and
  the closing parenthesis. The text of a present record is stated by
  `CiteFormat.ShortOfAuthors` and `CiteFormat.ShortNoAuthor`; the first of
  these inherits `CiteFormat.AuthorLaw`'s restriction to regularly spaced
  author fields.
- `CiteFormat.LongForm`: its own contract gives the shape of the pieces.
  The DOI, URL and no-link cases are stated by `CiteFormat.DoiWins`,
  `CiteFormat.UrlWithDate`, `CiteFormat.UrlWithoutDate` and `CiteFormat.NoLink`.
- `BibParse.BracedLen`: its own contract bounds the scan. Where it stops is
  stated by `BibParseLaws.BracedLenAppend`, `BibParseLaws.BracedValue` and
  `BibParseLaws.UnterminatedBraceDropsLastChar`.
- `Render.Numbers`: its own contract gives the numbers only when every key
  is numbered. Which keys are dropped otherwise is stated by
  `Render.NumbersOne` and `Render.NumbersAppend`.
- `WindCsv.ParseFormat`: the round trip holds for cells that are non-empty,
  trimmed, and free of commas and line breaks. Other cells do not survive
  `trim()` and `split`.
- Strings are sequences of Unicode scalar values, while JavaScript strings
  are sequences of UTF-16 code units. An unterminated braced value whose last
  character lies outside the Basic Multilingual Plane loses that whole
  character here; in JavaScript it loses only the low surrogate, leaving a
  lone high surrogate.
- The order of keys in a JavaScript `Map` or object is modelled only where
  it matters. `keyToNumber` keeps it as the registry's `order`. The entry
  store and rows are maps without order.
- Errors thrown by `fetch`, and `init`'s behaviour after such an error, are not modelled.
- The rest of `wind-visualization.js` is not part of this model: the map,
  the animation and the GeoJSON loading. The other files of the repository
  are not part of it either.
