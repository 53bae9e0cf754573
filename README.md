# MibTeX core in Dafny

MibTeX is a tool that turns a BibTeX bibliography into web pages and file collections. This
project models the parts of MibTeX that compute things and proves properties about them.

- **BibtexEntry** turns a raw BibTeX entry into the attributes MibTeX keeps:
  - the key, the type and the title;
  - the author list (the LaTeX escapes decoded, every `Last, First` swapped to `First Last`);
  - the venue, the year and the tags;
  - helpers for the year folder, the PDF and comments file names, last names, months,
    defined attributes and URL slugs.
- **Export** is the base of the exporters:
  - the entry table (first entry per key, citation records merged in);
  - the sorted index lists of authors, titles, years, venues and tags;
  - `countEntries`;
  - `renameFiles`, a greedy pairing of stray PDF files with entries whose file is missing.
- **ScholarCitations** picks the citation count of a title from a Google Scholar result page.
- **LatexPublisher** strips comments from LaTeX lines and keeps the list of blacklisted files.
- **Ini** reads `name=value` option lines.

Dafny modules, one file each:

- `JavaStrings` holds the `java.lang.String`, `StringTokenizer` and `Integer.parseInt`
  operations the core relies on.
- `Lists` holds the `contains`/`add` and `remove` idioms of `java.util.List`.
- `Sorting` holds `Collections.sort` with a natural order. It is an insertion sort; any
  correct sort gives the same list (`Sorting.SortedUnique`).
- `CitationEntry` holds the sentinel counts (values assumed; see Left out) and a row of `citations.csv`.
- `BibtexEntry`, `Export`, `ScholarCitations`, `LatexPublisher` and `Ini` follow the classes
  of the same names.

How the model is built:

- Code that updates objects in place is a Dafny `class` with methods proved against
  specification functions: the `BibtexEntry` parse methods, the static collections of
  `Export`, `LatexPublisher.Options` and `Ini`.
- Loops are `while` loops with invariants.
- The pure parts are functions, and lemmas prove what the source promises about them.
- The outside world is a parameter:
  - the PDF folder listing is a sequence, and the existence of a file is a predicate;
  - the stdin answers are a sequence;
  - `File.renameTo` is an oracle;
  - the Levenshtein distance is an uninterpreted function;
  - the Scholar result page is a function from the query title to its hits.

## Definitions

Each source function and the Dafny definition that models it; the properties proved about
each definition are the rows of "## Model". Paths are relative to the repository root.

- BibtexEntry (MibTeX/src/de/mibtex/BibtexEntry.java):
  - the first constructor (70-83): `BibtexEntry.BibtexEntry.constructor`, which gives the attributes `ParsedKey`, the entry's type name, `ParsedAuthors`, `ParsedTitle`, `ParsedVenue`, `ParsedLink`, `YearOf` and `ParsedTags`;
  - `getYearPath` (111-117): `YearPath`, with `Decade` and `YearFolder`;
  - `getCommentsFile` and `getPDFFile` (119-131): `CommentsFileName`, `PdfFileName`, `CommentsFile` and `PdfFile`;
  - `getLastname` (178-180): `GetLastname`;
  - `parseAuthor` (200-242): `AuthorString` (decoding, ` and ` to `; `, the comma-swap loop `SwapCommas`) and `AuthorNames` (the tokenizer), together `ParsedAuthors`;
  - `parseTitle` (244-257): `ParsedTitle`;
  - `parseVenue` (259-273): `VenueOf`;
  - `parseYear` (290-298): `YearOf`;
  - `parseTags` (300-323): `TagsOf`;
  - `getMonthAsNumber` (333-339): `MonthAsNumber`;
  - `getAttribute` (345-355): `Attribute`;
  - `replaceUmlauts` (357-388): `ReplaceUmlauts`;
  - `toURL` (394-417): `ToURL`, specified by `UrlReplacements` and `ReplaceInOrder`;
  - `isDefined` (426-433): `IsDefined`.
- Export (MibTeX/src/de/mibtex/export/Export.java):
  - `extractEntries` (73-87): `ParsedEntries` and `Dedup`;
  - `readCitations` (89-112): `MergeAll`, as `ReadCitations`;
  - `readAuthors`, `readTitles`, `readYears`, `readVenues` and `readTags` (114-162): `AuthorsOf`, `TitlesOf`, `YearsOf`, `RenameVenues` with `VenuesOf`, and `TagsOf`, each indexed by `StringIndex` or `IntIndex`;
  - `renameFiles` (164-231): `Reconcile` (the first loop), `Select` (the nested loops), `Round` (one iteration), `Rounds` (the while loop) and `RenameOutcome`; `File.getName` is `Name`;
  - the cut-off at 207: `TooDifferentNames`, through `AboveSevenTenths` and `RoundDouble`;
  - `countEntries` (253-259): `CountWhere`.
- ScholarCitations (MibTeX/src/de/mibtex/citationservice/ScholarCitations.java):
  - `getCitations` (40-106): `Citations`, made of `Attempt` (one query), `Scan` (the hit loop) and `RetryTitle` (the retry), with the title normalization `Normalize` (65-66, 86-87) and the threshold `Close` (68, 89).
- LatexPublisher (MibTeX/src/de/mibtex/LatexPublisher.java):
  - `Options.apply` (68-91): `Applied`; `Options.isBlackListed` (96-99): `Options.IsBlackListed`;
  - `processLatexFile` (164-214): `CommentPos` (the search for the comment) and `Published` (one line's output);
  - `isDocumentationComment` (219-225): `IsDocumentationComment`.
- Ini (MibTeX/src/de/mibtex/Ini.java):
  - `fromLineStream` (29-43): `Parse`; `parseBool` (56-58): `ParseBool`.

## Model

Source paths are relative to the root of the MibTeX repository.

| member | source | states |
|---|---|---|
| JavaStrings.IndexOfFrom | MibTeX/src/de/mibtex/BibtexEntry.java:223-227 | `indexOf(p, from)` is the first occurrence at or after `from`, or -1 when there is none |
| JavaStrings.IndexOfChar | MibTeX/src/de/mibtex/LatexPublisher.java:179-182 | `indexOf(c, from)` for a char: the first index at or after `from` holding `c`, none before it, or -1 |
| JavaStrings.LastIndexOfFrom | MibTeX/src/de/mibtex/BibtexEntry.java:224 | `lastIndexOf(p, from)` is the last occurrence at or before `from`, or -1 |
| JavaStrings.ReplaceAbsent | MibTeX/src/de/mibtex/BibtexEntry.java:357-385 | `replace` leaves a text without the pattern unchanged |
| JavaStrings.ReplaceRemovesChar | MibTeX/src/de/mibtex/BibtexEntry.java:381 | replacing a one-char pattern by text free of that char leaves no occurrence of it |
| JavaStrings.ReplaceKeepsAbsent | MibTeX/src/de/mibtex/BibtexEntry.java:412-414 | a char in neither the text nor the replacement never appears in the result |
| JavaStrings.InsertEverywhere | MibTeX/src/de/mibtex/BibtexEntry.java:412-414 | `replace("", rep)` inserts `rep` around every whole char: length and chars of the result (the surrogate split Java makes is under Left out) |
| JavaStrings.CollapseWhitespace | MibTeX/src/de/mibtex/BibtexEntry.java:386 | `replaceAll("\\s+", " ")` leaves no two adjacent whitespace chars and only blanks; it empties only the empty text and keeps a leading blank |
| JavaStrings.CollapseCollapsed | MibTeX/src/de/mibtex/BibtexEntry.java:386 | collapsing text that is already collapsed changes nothing |
| JavaStrings.Trim | MibTeX/src/de/mibtex/BibtexEntry.java:236 | `trim` gives a trimmed text made of chars of the input, and leaves trimmed text as it is |
| JavaStrings.Split | MibTeX/src/de/mibtex/Ini.java:34 | `split(c, -1)` gives one more piece than there are separators, and no piece holds the separator |
| JavaStrings.SplitJoin | MibTeX/src/de/mibtex/Ini.java:34 | joining the pieces with the separator gives the line back |
| JavaStrings.JoinSplit | MibTeX/src/de/mibtex/Ini.java:34 | splitting a join of separator-free pieces gives the pieces back |
| JavaStrings.Tokens | MibTeX/src/de/mibtex/BibtexEntry.java:234-236 | the `StringTokenizer` tokens are non-empty and free of the delimiter |
| JavaStrings.TrimAll | MibTeX/src/de/mibtex/BibtexEntry.java:235-236 | every token trimmed, in order |
| JavaStrings.ToLower | MibTeX/src/de/mibtex/BibtexEntry.java:334 | lower-casing maps each char of the text and keeps its length |
| JavaStrings.ToUpper | MibTeX/src/de/mibtex/BibtexEntry.java:265-269 | upper-casing maps each char of the text and keeps its length |
| JavaStrings.Units | MibTeX/src/de/mibtex/export/Export.java:207 | a char is one UTF-16 code unit inside the Basic Multilingual Plane and a surrogate pair, led by a high surrogate, outside it |
| JavaStrings.UnitsInjective | MibTeX/src/de/mibtex/export/Export.java:120 | distinct chars have distinct code units |
| JavaStrings.Utf16Injective | MibTeX/src/de/mibtex/export/Export.java:120 | distinct strings have distinct code-unit sequences, so comparing units tells strings apart |
| JavaStrings.Utf16Append | MibTeX/src/de/mibtex/export/Export.java:207 | the code units of a concatenation are the units of its parts, so `length()` adds up |
| JavaStrings.LengthBounds | MibTeX/src/de/mibtex/export/Export.java:207 | `length()` lies between the number of chars and twice it, and equals the number of chars exactly when every char is in the Basic Multilingual Plane |
| JavaStrings.ParseInt | MibTeX/src/de/mibtex/BibtexEntry.java:294 | `Integer.parseInt` yields only 32-bit values |
| JavaStrings.ParseIntOfNatToString | MibTeX/src/de/mibtex/BibtexEntry.java:294 | parsing the decimal text of a year in the 32-bit range gives the year back |
| JavaStrings.NatToStringInjective | MibTeX/src/de/mibtex/BibtexEntry.java:112-115 | distinct numbers have distinct decimal texts |
| Lists.AddAllElems | MibTeX/src/de/mibtex/export/Export.java:117-119 | collecting with `contains`/`add` keeps exactly the values of the start list and of the input |
| Lists.AddAllDistinct | MibTeX/src/de/mibtex/export/Export.java:117-119 | collecting with `contains`/`add` keeps a duplicate-free list duplicate-free |
| Lists.AddAllPrefix | MibTeX/src/de/mibtex/export/Export.java:117-119 | values already collected keep their places |
| Lists.AddAllAppend | MibTeX/src/de/mibtex/export/Export.java:116-119 | collecting two batches in turn is collecting their concatenation |
| Lists.AddAbsent | MibTeX/src/de/mibtex/export/Export.java:117-119 | the `contains`/`add` loop computes AddAll |
| Lists.RemoveAllElems | MibTeX/src/de/mibtex/LatexPublisher.java:71-73 | `removeAll` drops every copy of the value and keeps every other element |
| Lists.RemoveFirstElems | MibTeX/src/de/mibtex/LatexPublisher.java:85 | `remove(x)` keeps only elements of the list, and every element other than `x` |
| Lists.RemoveFirstAbsent | MibTeX/src/de/mibtex/export/Export.java:175 | `remove` of an absent value changes nothing |
| Lists.RemoveFirstMultiset | MibTeX/src/de/mibtex/export/Export.java:220 | `remove(x)` takes exactly one copy of `x` out, if there is one |
| Lists.IndexListSpec | MibTeX/src/de/mibtex/export/Export.java:114-121 | an index list is sorted, duplicate-free and holds exactly the collected values |
| Sorting.InsertSpec | MibTeX/src/de/mibtex/export/Export.java:120 | inserting into a sorted list keeps it sorted and adds one copy of the value |
| Sorting.SortSpec | MibTeX/src/de/mibtex/export/Export.java:120 | `Collections.sort` gives a sorted permutation of the list |
| Sorting.SortedUnique | MibTeX/src/de/mibtex/export/Export.java:120 | under a total order a list has exactly one sorted permutation, so the sort algorithm does not matter |
| Sorting.SortDistinct | MibTeX/src/de/mibtex/export/Export.java:120 | sorting a duplicate-free list keeps it duplicate-free |
| Sorting.StringLeTotal | MibTeX/src/de/mibtex/export/Export.java:120 | `String.compareTo`, the lexicographic order on UTF-16 code units, is a total order on strings |
| Sorting.StringLeByUnits | MibTeX/src/de/mibtex/export/Export.java:120 | the order is by code unit, not code point: U+1F600 (units D83D DE00) sorts before U+FF21 |
| Sorting.IntLeTotal | MibTeX/src/de/mibtex/export/Export.java:135 | `Integer.compareTo` is a total order |
| BibtexEntry.ReplaceUmlauts | MibTeX/src/de/mibtex/BibtexEntry.java:357-388 | the result holds no backslash or brace, and no whitespace but single blanks |
| BibtexEntry.StripMarkup | MibTeX/src/de/mibtex/BibtexEntry.java:381-385 | dropping backslashes, turning dashes into en dashes and dropping braces leaves no backslash or brace |
| BibtexEntry.DecodeFree | MibTeX/src/de/mibtex/BibtexEntry.java:358-380 | every decoding rule needs a backslash: text without one passes them unchanged |
| BibtexEntry.DecodeOnU | MibTeX/src/de/mibtex/BibtexEntry.java:358-380 | `\"u` decodes to `&uuml;` |
| BibtexEntry.DecodeOnBracedU | MibTeX/src/de/mibtex/BibtexEntry.java:358-380 | the brace rule runs first, so `\"{u}` decodes to `{&uuml;}` |
| BibtexEntry.UmlautWithOrWithoutBraces | MibTeX/src/de/mibtex/BibtexEntry.java:358-386 | `M\"uller` and `M\"{u}ller` both become `M&uuml;ller` |
| BibtexEntry.DashesBecomeEnDash | MibTeX/src/de/mibtex/BibtexEntry.java:382-383 | both `---` and `--` become one `&#8211;` |
| BibtexEntry.ReplaceUmlautsNotIdempotent | MibTeX/src/de/mibtex/BibtexEntry.java:382-385 | removing braces joins `-{}-` into `--`, which a second pass turns into an en dash, so a second pass can change the text |
| BibtexEntry.ReplaceUmlautsFixpoint | MibTeX/src/de/mibtex/BibtexEntry.java:357-387 | collapsed text without backslash, brace or `--` is left unchanged |
| BibtexEntry.ReplaceUmlautsIdempotent | MibTeX/src/de/mibtex/BibtexEntry.java:357-387 | a second pass is the identity whenever the first result holds no `--` |
| BibtexEntry.SwapFirstComma | MibTeX/src/de/mibtex/BibtexEntry.java:223-231 | one pass of the comma-swap loop keeps the length of the author text |
| BibtexEntry.SwapFirstCommaCounts | MibTeX/src/de/mibtex/BibtexEntry.java:223-231 | one pass trades exactly one comma for one blank and keeps every other char, so the loop terminates |
| BibtexEntry.SwapFirstCommaOn | MibTeX/src/de/mibtex/BibtexEntry.java:223-231 | on `…; Last,First; …` a pass gives `…; First Last; …` |
| BibtexEntry.SwapStep | MibTeX/src/de/mibtex/BibtexEntry.java:222-231 | the indices a pass computes are in range, the pass removes a comma, and the rest of the loop ends where the whole loop does |
| BibtexEntry.SwapCommas | MibTeX/src/de/mibtex/BibtexEntry.java:222-232 | the finished loop leaves no comma and keeps the length |
| BibtexEntry.SwapNames | MibTeX/src/de/mibtex/BibtexEntry.java:222-232 | the while loop computes SwapCommas |
| BibtexEntry.TrimmedTokenList | MibTeX/src/de/mibtex/BibtexEntry.java:234-236 | the tokenizer loop yields the trimmed tokens in order |
| BibtexEntry.TrimmedTokens | MibTeX/src/de/mibtex/BibtexEntry.java:234-236 | every trimmed token is trimmed and comma-free |
| BibtexEntry.AuthorNames | MibTeX/src/de/mibtex/BibtexEntry.java:220-236 | every author name is trimmed and comma-free |
| BibtexEntry.TwoAuthorsNames | MibTeX/src/de/mibtex/BibtexEntry.java:220-236 | `Smith, John and Doe, Jane` yields the names `John Smith` and `Jane Doe` |
| BibtexEntry.OneAuthorName | MibTeX/src/de/mibtex/BibtexEntry.java:220-236 | `Jane Doe` yields the single name `Jane Doe` |
| BibtexEntry.TwoAuthorsSwapped | MibTeX/src/de/mibtex/BibtexEntry.java:222-232 | the loop swaps both names of `Last, First; Last, First` |
| BibtexEntry.TwoAuthorsSeparated | MibTeX/src/de/mibtex/BibtexEntry.java:221 | `" and "` between two authors becomes `"; "` |
| BibtexEntry.TwoAuthorsKeepDecoded | MibTeX/src/de/mibtex/BibtexEntry.java:220 | decoding leaves plain author names alone |
| BibtexEntry.YearPathSlash | MibTeX/src/de/mibtex/BibtexEntry.java:111-117 | the year path has a sub-folder exactly from 1990 on |
| BibtexEntry.YearPathZero | MibTeX/src/de/mibtex/BibtexEntry.java:111-117 | the folder is `0000s` exactly for the years before 1970 |
| BibtexEntry.LaterYearPath | MibTeX/src/de/mibtex/BibtexEntry.java:111-117 | from 1990 on the path is the decade, `s`, `/` and the year |
| BibtexEntry.DecadeInjective | MibTeX/src/de/mibtex/BibtexEntry.java:112 | the same decade folder means the same decade |
| BibtexEntry.LaterYearInjective | MibTeX/src/de/mibtex/BibtexEntry.java:111-117 | from 1990 on distinct years have distinct paths |
| BibtexEntry.YearPathSameFolder | MibTeX/src/de/mibtex/BibtexEntry.java:111-117 | two years share a folder exactly when they are both before 1970, in the same decade of 1970-1989, or the same year from 1990 on |
| BibtexEntry.FileBase | MibTeX/src/de/mibtex/BibtexEntry.java:121 | the key with `:` turned into `-` and trimmed holds no `:` and is trimmed |
| BibtexEntry.FileNamesShareBase | MibTeX/src/de/mibtex/BibtexEntry.java:119-131 | both file names start with that base; the PDF ends in `.pdf`, the comments in `-comments.pdf` |
| BibtexEntry.PlainKeyFileNames | MibTeX/src/de/mibtex/BibtexEntry.java:119-131 | a trimmed key without `:` is used as it is |
| BibtexEntry.GetLastname | MibTeX/src/de/mibtex/BibtexEntry.java:178-180 | the last name is a blank-free suffix of the name, preceded by a blank unless it is the whole name |
| BibtexEntry.LastBlank | MibTeX/src/de/mibtex/BibtexEntry.java:179 | `lastIndexOf(" ")` is a blank with no blank after it, or -1 |
| BibtexEntry.GetLastnameOf | MibTeX/src/de/mibtex/BibtexEntry.java:178-180 | the last name of `First Last` is `Last` |
| BibtexEntry.GetLastnameNoBlank | MibTeX/src/de/mibtex/BibtexEntry.java:178-180 | a name without a blank is its own last name |
| BibtexEntry.Field | MibTeX/src/de/mibtex/BibtexEntry.java:346 | `getField` is present exactly for a field of the entry, with its value |
| BibtexEntry.Attribute | MibTeX/src/de/mibtex/BibtexEntry.java:345-348 | getAttribute is the field's value, or `""` for a missing field |
| BibtexEntry.IsDefinedIff | MibTeX/src/de/mibtex/BibtexEntry.java:426-433 | isDefined is false exactly for null, `""`, `unknown` and a text in parentheses |
| BibtexEntry.PlaceholderUndefined | MibTeX/src/de/mibtex/BibtexEntry.java:261 | the `(type)` placeholder is not a defined value |
| BibtexEntry.IncollectionVenue | MibTeX/src/de/mibtex/BibtexEntry.java:259-263 | an incollection, in any case, keeps the undefined `(type)` venue |
| BibtexEntry.VenuePriority | MibTeX/src/de/mibtex/BibtexEntry.java:259-273 | otherwise an upper-cased journal overrides an upper-cased booktitle; with neither the venue stays undefined |
| BibtexEntry.YearOfText | MibTeX/src/de/mibtex/BibtexEntry.java:290-298 | a year field holding the text of a year gives that year |
| BibtexEntry.YearOfKeeps | MibTeX/src/de/mibtex/BibtexEntry.java:290-298 | a year already set, a missing field or a field that is not a number leaves the year unchanged |
| BibtexEntry.MonthAsNumber | MibTeX/src/de/mibtex/BibtexEntry.java:333-339 | a month number is always between 1 and 12 |
| BibtexEntry.MonthTable | MibTeX/src/de/mibtex/BibtexEntry.java:54-68 | the month table maps exactly the n-th English month name to n |
| BibtexEntry.MonthAsNumberIff | MibTeX/src/de/mibtex/BibtexEntry.java:333-339 | the month is n exactly when the field, lower-cased, is the n-th month name |
| BibtexEntry.PutAllIfAbsent | MibTeX/src/de/mibtex/BibtexEntry.java:396-410 | `putIfAbsent` keeps every earlier value and adds every key |
| BibtexEntry.PutAllIfAbsentFrom | MibTeX/src/de/mibtex/BibtexEntry.java:396-410 | a key added by `putIfAbsent` carries the value of one of the pairs put |
| BibtexEntry.UrlReplacements | MibTeX/src/de/mibtex/BibtexEntry.java:395-410 | the caller's overwrites win over the defaults, and every default key is in the table |
| BibtexEntry.UrlReplacementDefault | MibTeX/src/de/mibtex/BibtexEntry.java:395-410 | a key the caller did not set carries its default value |
| BibtexEntry.UnsafeKeys | MibTeX/src/de/mibtex/BibtexEntry.java:406-410 | each of `: ? \ / #` is a key of the table |
| BibtexEntry.UrlValuesSafe | MibTeX/src/de/mibtex/BibtexEntry.java:395-410 | no value of the table holds an unsafe char unless the caller put it there |
| BibtexEntry.ToURL | MibTeX/src/de/mibtex/BibtexEntry.java:394-417 | toURL applies each replacement of the table in the given iteration order |
| BibtexEntry.ApplyInOrder | MibTeX/src/de/mibtex/BibtexEntry.java:412-414 | the replacement loop applies each key in turn |
| BibtexEntry.ReplaceInOrderRemoves | MibTeX/src/de/mibtex/BibtexEntry.java:412-414 | a one-char key whose value, like every other value, avoids that char removes it for good, wherever it stands in the order |
| BibtexEntry.UrlHasNoUnsafeChars | MibTeX/src/de/mibtex/BibtexEntry.java:394-417 | whatever the HashMap order, and whatever the caller overwrites with safe values, the slug holds none of `: ? \ / #` |
| BibtexEntry.PlainTextUrl | MibTeX/src/de/mibtex/BibtexEntry.java:390-417 | text without `&`, the mis-decoded char or an unsafe char comes out of toURL unchanged |
| BibtexEntry.LookupPut | MibTeX/src/de/mibtex/BibtexEntry.java:314 | after `put` the key has the new list and every other key its old one |
| BibtexEntry.KeysPut | MibTeX/src/de/mibtex/BibtexEntry.java:314 | `LinkedHashMap.put` keeps the key order and appends a new key |
| BibtexEntry.TagsLookup | MibTeX/src/de/mibtex/BibtexEntry.java:300-323 | a tag key gets the trimmed tokens of its decoded field exactly when it is present; other keys keep their lists |
| BibtexEntry.TagsText | MibTeX/src/de/mibtex/BibtexEntry.java:300-323 | a text is a tag exactly when it is the decoded text of a present tag field |
| BibtexEntry.TagListsWellFormed | MibTeX/src/de/mibtex/BibtexEntry.java:310-314 | every tag of a tag list is trimmed and comma-free |
| BibtexEntry.FreshAuthors | MibTeX/src/de/mibtex/BibtexEntry.java:200-236 | a fresh entry takes its authors from the author field, else the editor field, sets the editor flag exactly without an author field, and every name is trimmed and comma-free |
| BibtexEntry.NoAuthorsNoNames | MibTeX/src/de/mibtex/BibtexEntry.java:203-217 | without author and editor the text is `""`, the flag is set and the list stays empty |
| BibtexEntry.BibtexEntry.constructor | MibTeX/src/de/mibtex/BibtexEntry.java:70-83 | each attribute is what its parse method computes from the initial value, and the entry is not yet in the citation service |
| BibtexEntry.BibtexEntry.ParseKey | MibTeX/src/de/mibtex/BibtexEntry.java:190-198 | an unknown key is taken from the entry |
| BibtexEntry.BibtexEntry.ParseType | MibTeX/src/de/mibtex/BibtexEntry.java:325-327 | the type is taken from the entry |
| BibtexEntry.BibtexEntry.ParseAuthor | MibTeX/src/de/mibtex/BibtexEntry.java:200-242 | the author text, author list and editor flag become ParsedAuthors of their old values |
| BibtexEntry.BibtexEntry.ParseTitle | MibTeX/src/de/mibtex/BibtexEntry.java:244-257 | an unknown title is read from its field (`""` if missing), then decoded |
| BibtexEntry.BibtexEntry.ParseVenue | MibTeX/src/de/mibtex/BibtexEntry.java:259-273 | an unknown venue becomes VenueOf the type, booktitle and journal |
| BibtexEntry.BibtexEntry.ParseDOIandURL | MibTeX/src/de/mibtex/BibtexEntry.java:275-288 | an empty DOI or URL is read from its field |
| BibtexEntry.BibtexEntry.ParseYear | MibTeX/src/de/mibtex/BibtexEntry.java:290-298 | a year still 0 is parsed from the year field |
| BibtexEntry.BibtexEntry.ParseTags | MibTeX/src/de/mibtex/BibtexEntry.java:300-323 | with no tags yet, each present tag field adds its decoded text and its trimmed tokens |
| Export.NewEntry | MibTeX/src/de/mibtex/export/Export.java:77 | `new BibtexEntry(raw)` as the attributes the exporters read |
| Export.DedupKeys | MibTeX/src/de/mibtex/export/Export.java:73-85 | the table has one entry per key and exactly the keys of the database |
| Export.DedupOrder | MibTeX/src/de/mibtex/export/Export.java:73-85 | the kept entries keep their database order |
| Export.DedupFirstWins | MibTeX/src/de/mibtex/export/Export.java:73-85 | an entry is kept exactly when it is the first of its key |
| Export.MergeAllSpec | MibTeX/src/de/mibtex/export/Export.java:102-109 | an entry whose key has records carries the citations and lastUpdate of the last record; every other entry and every other attribute is unchanged |
| Export.MergeAllKeys | MibTeX/src/de/mibtex/export/Export.java:102-109 | the merge leaves the keys and their order alone |
| Export.KeyIndex | MibTeX/src/de/mibtex/export/Export.java:103-105 | the lookup finds an entry with the key, or none exists |
| Export.MergeRecordAt | MibTeX/src/de/mibtex/export/Export.java:103-108 | with one entry per key, updating the entry found by the lookup is one merge step |
| Export.TitlesOf | MibTeX/src/de/mibtex/export/Export.java:125-126 | the titles of the entries, in entry order |
| Export.YearsOf | MibTeX/src/de/mibtex/export/Export.java:132-134 | the years of the entries, in entry order |
| Export.VenuesOf | MibTeX/src/de/mibtex/export/Export.java:140-147 | the venues of the entries, in entry order |
| Export.AddTagLists | MibTeX/src/de/mibtex/export/Export.java:155-159 | the loop over one entry's tag lists collects its tags |
| Export.RenameVenuesAt | MibTeX/src/de/mibtex/export/Export.java:140-145 | each entry keeps its place and all attributes but its renamed venue |
| Export.RenameVenuesKeeps | MibTeX/src/de/mibtex/export/Export.java:140-145 | renaming venues changes no author, title or year |
| Export.AuthorsOfElems | MibTeX/src/de/mibtex/export/Export.java:116-117 | a value is an author exactly when some entry lists it |
| Export.TagsOfElems | MibTeX/src/de/mibtex/export/Export.java:154-156 | a text is a tag exactly when some tag list of some entry holds it |
| Export.AuthorIndex | MibTeX/src/de/mibtex/export/Export.java:114-121 | the author list is sorted, duplicate-free, and exactly the authors of the entries |
| Export.TitleIndex | MibTeX/src/de/mibtex/export/Export.java:123-128 | the title list is sorted and holds every title as often as the entries do |
| Export.YearIndex | MibTeX/src/de/mibtex/export/Export.java:130-136 | the year list is sorted, duplicate-free, and exactly the years of the entries |
| Export.VenueIndex | MibTeX/src/de/mibtex/export/Export.java:138-150 | the venue list is sorted, duplicate-free, exactly the renamed venues, and holds neither `GPCE13` nor `VAMOS20` |
| Export.RenamedVenues | MibTeX/src/de/mibtex/export/Export.java:140-147 | the venues after renaming are the renamed venues of the entries |
| Export.OldVenuesGone | MibTeX/src/de/mibtex/export/Export.java:142-145 | no venue is `GPCE13` or `VAMOS20` after renaming |
| Export.TagIndex | MibTeX/src/de/mibtex/export/Export.java:152-162 | the tag list is sorted, duplicate-free, and exactly the tags in the entries' tag lists |
| Export.CountPartition | MibTeX/src/de/mibtex/export/Export.java:253-259 | a filter and its complement count every entry once |
| Export.CountExtremes | MibTeX/src/de/mibtex/export/Export.java:253-259 | a filter that includes all entries counts all; one that includes none counts none |
| Export.Export.constructor | MibTeX/src/de/mibtex/export/Export.java:40-71 | the entry table, then each index list built from it |
| Export.Export.ReadIndexLists | MibTeX/src/de/mibtex/export/Export.java:66-70 | the five index lists, in the constructor's order; only readVenues changes the entries |
| Export.Export.ExtractEntries | MibTeX/src/de/mibtex/export/Export.java:73-87 | the table is the first entry per key in database order, with the citations merged in |
| Export.Export.ReadCitationsInto | MibTeX/src/de/mibtex/export/Export.java:89-112 | the merge loop updates the entries as ReadCitations states |
| Export.Export.ReadAuthors | MibTeX/src/de/mibtex/export/Export.java:114-121 | the author list is the index of the entries' authors |
| Export.Export.ReadTitles | MibTeX/src/de/mibtex/export/Export.java:123-128 | the title list is the sorted titles |
| Export.Export.ReadYears | MibTeX/src/de/mibtex/export/Export.java:130-136 | the year list is the index of the years |
| Export.Export.ReadVenues | MibTeX/src/de/mibtex/export/Export.java:138-150 | the venues are renamed in the entries and the venue list is the index of the new venues |
| Export.Export.ReadTags | MibTeX/src/de/mibtex/export/Export.java:152-162 | the tag list is the index of the entries' tags |
| Export.Export.CountEntries | MibTeX/src/de/mibtex/export/Export.java:253-259 | the number of entries the filter includes |
| Export.Export.FindMissing | MibTeX/src/de/mibtex/export/Export.java:170-181 | the first loop of renameFiles computes the missing entries and the remaining files |
| Export.Export.RenameFiles | MibTeX/src/de/mibtex/export/Export.java:164-231 | renameFiles, with a guard on a round without a pair, ends as RenameOutcome states |
| Export.NameAfter | MibTeX/src/de/mibtex/export/Export.java:197 | `getName` is what follows the last `/` |
| Export.NameIsLastSegment | MibTeX/src/de/mibtex/export/Export.java:197 | the name holds no `/` and ends the path |
| Export.ReconcileOrder | MibTeX/src/de/mibtex/export/Export.java:172-181 | the missing entries keep their entry order |
| Export.ReconcileMissing | MibTeX/src/de/mibtex/export/Export.java:172-181 | the missing entries are exactly the entries without file that are not ignored |
| Export.ReconcileAvailable | MibTeX/src/de/mibtex/export/Export.java:171-176 | the files left are the listing less one copy of each existing file |
| Export.IgnoredTypes | MibTeX/src/de/mibtex/export/Export.java:178 | the ignored types are the substrings of `misc book` (including `""` and `c b`), not just `misc` and `book` |
| Export.SelectFirstMinimum | MibTeX/src/de/mibtex/export/Export.java:190-205 | a round selects the pair of minimal distance, the first in missing-then-available order; no pair only when every distance is at least Integer.MAX_VALUE |
| Export.SelectInRange | MibTeX/src/de/mibtex/export/Export.java:194-205 | the selected pair indexes `missing` and `available` |
| Export.SelectPair | MibTeX/src/de/mibtex/export/Export.java:190-205 | the nested loops compute the selection |
| Export.Round | MibTeX/src/de/mibtex/export/Export.java:189-228 | a round that goes on takes one entry off `missing`; its cut-off is Java's double test `minDistance > length() * 0.7` |
| Export.RoundStop | MibTeX/src/de/mibtex/export/Export.java:189-208 | a round stops for lack of files exactly when none is left, and stops without a pair only when every distance is at least Integer.MAX_VALUE |
| Export.RoundNextMissing | MibTeX/src/de/mibtex/export/Export.java:218-227 | a round that goes on removes an entry and reads one answer |
| Export.RoundNextRenamed | MibTeX/src/de/mibtex/export/Export.java:218-226 | a file leaves `available`, and a renaming is recorded, only on `y` and a successful rename |
| Export.RoundGoesOn | MibTeX/src/de/mibtex/export/Export.java:189-218 | a round goes on only with files left, a pair whose distance is not above `length() * 0.7` of the file name in double arithmetic, and an answer to read |
| Export.UlpBound | MibTeX/src/de/mibtex/export/Export.java:207 | a double has 53 significant bits: below 1.0 the gap is 2^-53, above it at most the value over 2^52 |
| Export.RoundDoubleClose | MibTeX/src/de/mibtex/export/Export.java:207 | rounding the product `length() * 0.7` to a double moves it by at most half a gap |
| Export.SevenTenthsAgrees | MibTeX/src/de/mibtex/export/Export.java:207 | for every int length, the double test agrees with `10 * d > 7 * length` except where `10 * d == 7 * length` |
| Export.SevenTenthsAtTies | MibTeX/src/de/mibtex/export/Export.java:207 | at those ties rounding decides: length 90 and distance 63 stop (90 * 0.7 is 62.99999999999999), length 10 and distance 7 go on (10 * 0.7 is 7.0) |
| Export.RoundsStatus | MibTeX/src/de/mibtex/export/Export.java:189-229 | the loop ends for lack of files exactly when none is left |
| Export.RoundsMissing | MibTeX/src/de/mibtex/export/Export.java:189-229 | entries only ever leave `missing` |
| Export.RoundsRenamed | MibTeX/src/de/mibtex/export/Export.java:189-229 | earlier renamings are kept, and at most one file is renamed per answer |
| Export.RoundsRenamesSucceed | MibTeX/src/de/mibtex/export/Export.java:219-220 | only renamings that succeeded are recorded |
| Export.RoundsAvailable | MibTeX/src/de/mibtex/export/Export.java:189-229 | the files left and the files renamed together are the files there were |
| Export.RoundsNeedYes | MibTeX/src/de/mibtex/export/Export.java:218-220 | without a `y` nothing is renamed |
| Export.StrayFiles | MibTeX/src/de/mibtex/export/Export.java:172-181 | with every file present and more PDFs than entries, nothing is missing while files are left |
| Export.StrayFileFails | MibTeX/src/de/mibtex/export/Export.java:189-207 | as written, that case dereferences the null availableFile |
| Export.StrayFileReported | MibTeX/src/de/mibtex/export/Export.java:189-209 | with the guard, the loop never fails; in that case it stops and reports the stray files as available |
| ScholarCitations.NormalizeNormal | MibTeX/src/de/mibtex/citationservice/ScholarCitations.java:65-66 | a normalized title holds only lower-case letters, digits and `_` |
| ScholarCitations.NormalizeFixes | MibTeX/src/de/mibtex/citationservice/ScholarCitations.java:65-66 | a title in that form is its own normalization |
| ScholarCitations.NormalizeIdempotent | MibTeX/src/de/mibtex/citationservice/ScholarCitations.java:86-87 | normalizing twice is normalizing once |
| ScholarCitations.ConsiderSummarizes | MibTeX/src/de/mibtex/citationservice/ScholarCitations.java:57-95 | one loop iteration keeps the best-hit characterisation |
| ScholarCitations.ScanSummarizes | MibTeX/src/de/mibtex/citationservice/ScholarCitations.java:52-96 | the scan ends with the closest qualifying hit, ties going to the higher count, and -1 when none qualified |
| ScholarCitations.UncitedNeverDisplaces | MibTeX/src/de/mibtex/citationservice/ScholarCitations.java:89-93 | a hit without a count never displaces a cited hit at the same distance |
| ScholarCitations.RetryTitleHasNoColon | MibTeX/src/de/mibtex/citationservice/ScholarCitations.java:100-102 | the part before the first colon has no colon |
| ScholarCitations.CitationsRetryOnce | MibTeX/src/de/mibtex/citationservice/ScholarCitations.java:98-105 | getCitations is at most two attempts: the title, then its part before the first colon |
| ScholarCitations.AttemptOutcome | MibTeX/src/de/mibtex/citationservice/ScholarCitations.java:44-99 | an attempt yields ROBOT exactly on a robot page, and otherwise a non-negative count or nothing |
| ScholarCitations.CitationsRobot | MibTeX/src/de/mibtex/citationservice/ScholarCitations.java:44-47 | a robot page ends the lookup with ROBOT before any hit is looked at |
| ScholarCitations.CitationsOutcome | MibTeX/src/de/mibtex/citationservice/ScholarCitations.java:98-105 | the result is ROBOT, NOT_FOUND or a non-negative count |
| ScholarCitations.CitationsFromBest | MibTeX/src/de/mibtex/citationservice/ScholarCitations.java:52-99 | a count found on the first attempt is the count of the best hit for the title |
| ScholarCitations.GetCitations | MibTeX/src/de/mibtex/citationservice/ScholarCitations.java:40-106 | the scan loop and the retry compute Citations |
| LatexPublisher.CommentFrom | MibTeX/src/de/mibtex/LatexPublisher.java:179-183 | the first `%` at or after a position that no backslash precedes, or -1 |
| LatexPublisher.LeadingPercentIsComment | MibTeX/src/de/mibtex/LatexPublisher.java:181 | a `%` at index 0 always begins the comment |
| LatexPublisher.FindCommentBegin | MibTeX/src/de/mibtex/LatexPublisher.java:179-183 | the search loop finds the first unescaped `%` |
| LatexPublisher.DocumentationCommentIsTriplePercent | MibTeX/src/de/mibtex/LatexPublisher.java:219-225 | isDocumentationComment holds exactly when `%%%` occurs at the index |
| LatexPublisher.PublishedShape | MibTeX/src/de/mibtex/LatexPublisher.java:185-205 | every line is written: whole without a comment or with a kept documentation comment, else cut after its `%`, so the emptiness check never fails |
| LatexPublisher.CommentPosOfCut | MibTeX/src/de/mibtex/LatexPublisher.java:200 | a cut line's comment begins at its last char |
| LatexPublisher.PublishedIdempotent | MibTeX/src/de/mibtex/LatexPublisher.java:177-206 | publishing a published line changes nothing |
| LatexPublisher.PublishedHasNoCommentText | MibTeX/src/de/mibtex/LatexPublisher.java:197-204 | without documentation comments the only comment left is the final `%` |
| LatexPublisher.OutputLines | MibTeX/src/de/mibtex/LatexPublisher.java:177-206 | one write per line, in order, each the published text and `\r\n` |
| LatexPublisher.ProcessLines | MibTeX/src/de/mibtex/LatexPublisher.java:177-206 | the line loop produces those writes |
| LatexPublisher.AppliedKeepsOthers | MibTeX/src/de/mibtex/LatexPublisher.java:68-91 | an ending other than `.pdf` is blacklisted after apply exactly when it was before, except `.bbl` under ACM, or it is a shell script being removed |
| LatexPublisher.AppliedPdf | MibTeX/src/de/mibtex/LatexPublisher.java:84-88 | with one leading `.pdf`, `.pdf` is blacklisted after apply exactly when PDFs are not kept |
| LatexPublisher.DefaultEndings | MibTeX/src/de/mibtex/LatexPublisher.java:45-57 | the default endings list `.pdf` once and first, and hold `.bbl` but not `.tex`, `.sh` or `.bat` |
| LatexPublisher.AppliedDefaults | MibTeX/src/de/mibtex/LatexPublisher.java:45-91 | on the defaults, apply blacklists `.pdf` iff not keeping PDFs, `.bbl` iff not ACM, `.sh` and `.bat` iff removing scripts, keeps the others, and never `.tex` |
| LatexPublisher.Options.constructor | MibTeX/src/de/mibtex/LatexPublisher.java:35-61 | the default flags and lists, valid |
| LatexPublisher.Options.Apply | MibTeX/src/de/mibtex/LatexPublisher.java:68-91 | the endings become Applied of the old endings, nothing else changes, and validate still holds |
| LatexPublisher.TexNotEnding | MibTeX/src/de/mibtex/LatexPublisher.java:45-57 | no default ending, `.sh` or `.bat` ends a `.tex` file name |
| LatexPublisher.TexFilesNotBlackListed | MibTeX/src/de/mibtex/LatexPublisher.java:63-99 | with the default lists and any flags, a `.tex` file is never blacklisted |
| Ini.AcceptedForm | MibTeX/src/de/mibtex/Ini.java:34-35 | a line is accepted exactly when it holds one `=`, and it is then its name, `=` and its value |
| Ini.AcceptedAssignment | MibTeX/src/de/mibtex/Ini.java:32-36 | every `name=value` line without the section header sets `name` to `value`, untrimmed |
| Ini.ParseKeysNamed | MibTeX/src/de/mibtex/Ini.java:29-43 | an option is set only by an accepted line naming it |
| Ini.NamedParseKeys | MibTeX/src/de/mibtex/Ini.java:29-43 | every option an accepted line names is set |
| Ini.ParseLastWins | MibTeX/src/de/mibtex/Ini.java:21-23 | an option takes the value of the last accepted line naming it |
| Ini.ParseBoolLower | MibTeX/src/de/mibtex/Ini.java:56-58 | parseBool is true exactly for `true` in any case |
| Ini.Ini.constructor | MibTeX/src/de/mibtex/Ini.java:17-19 | a new store holds no option |
| Ini.Ini.Put | MibTeX/src/de/mibtex/Ini.java:21-23 | put sets the option and keeps every other one |
| Ini.Ini.Get | MibTeX/src/de/mibtex/Ini.java:25-27 | get is the value of a set option, and absent (null) otherwise |
| Ini.Ini.FromLineStream | MibTeX/src/de/mibtex/Ini.java:29-43 | a fresh store holding the options the lines set |

## Left out

- Input and output:
  - The BibTeX file reading and the jbibtex parser are not part of this model. A database is a sequence of objects, and an entry's fields are a map from field name to its user string.
  - The console and error messages are not modelled.
  - The `citations.csv` file is an optional list of records, `None` when the file does not exist. Read errors inside the file are not modelled.
  - `findAvailablePDFs` is not modelled. The recursive folder listing is the `listing` parameter of `RenameFiles`.
  - `readFromFile`, `writeToFile*` and `cleanOutputFolder` are file I/O and are not modelled.
- Outside code is replaced by parameters:
  - The Levenshtein distance is the uninterpreted `dist`.
  - `File.exists` is the `present` predicate and `File.renameTo` the `renames` oracle.
  - The `Scanner` answers are the `answers` sequence. Running out of answers ends the loop (`NoAnswer`) where Java would throw.
  - `FileUtils.concat` is a join with `/`. The `COMMENTS_DIR` and `PDF_DIR` folders are the `folder` parameter.
- BibtexViewer is not part of this model. It holds the configuration, the tag keys (a parameter `tagKeys`) and the exporter dispatch.
- `ScholarCitations`:
  - The network access (`connect`, `toString`), the query URL and the regular-expression scraping of the hits are not modelled. The `fetch` parameter gives the page for a title, each hit as its cleaned title and optional "Cited by" count.
  - `Integer.parseInt` of the scraped count is taken to succeed, so the count is a `nat`.
- Floating point:
  - The cut-off `minDistance > getName().length() * 0.7` (Export.java:207) is modelled as Java's double arithmetic: 0.7 is the nearest double, and the product is rounded to 53 bits, ties to even (`AboveSevenTenths`).
  - ScholarCitations.Close: the threshold `d < length() / 100f * 10` (ScholarCitations.java:68 and 89) is `10 * d < length()` in exact arithmetic; the rounding of the `float` quotient and product is not modelled.
- Strings:
  - A Java string is a sequence of UTF-16 code units; here it is a sequence of Unicode scalar values. `length()` and `compareTo` are stated on the code units (`JavaStrings.Utf16`). Searches, slices and `replace` work on whole chars. The patterns need not be ASCII: `toURL` replaces `\U{00EF}\U{00BF}\U{00BD}` and any key its caller passes. A non-empty well-formed pattern matches the UTF-16 units of a well-formed text only at char boundaries, so for such a pattern Java does not split a surrogate pair either.
  - JavaStrings.InsertEverywhere: `replace("", rep)` is modelled on whole chars, putting `rep` around each char. Java puts `rep` around each UTF-16 unit, so it splits the surrogate pair of a char outside the Basic Multilingual Plane: `"\U{1F600}".replace("", "x")` is 5 units in Java and 4 here. The core reaches this only when a caller passes an empty key to `toURL` (BibtexEntry.java:412-414); every default key is non-empty.
  - JavaStrings.ParseInt: accepts ASCII digits only, while `Integer.parseInt` accepts any Unicode decimal digit (a year `２０２０` is 2020 in Java and leaves the year at 0 here).
- JavaStrings.ToLower, JavaStrings.ToUpper, JavaStrings.EqualsIgnoreCase: case conversion covers ASCII only, and so do the `\w` and `\s` classes. Java's versions differ in three ways:
  - They are Unicode-aware.
  - The no-argument `toLowerCase` and `toUpperCase` follow the default locale. In a Turkish locale, `I` lower-cases to a dotless `ı`. The month lookup at BibtexEntry.java:334 then misses `APRIL`, and the `\W` filter at ScholarCitations.java:65-66 drops the letter. Likewise `i` upper-cases to `İ` at BibtexEntry.java:265 and 269.
  - `toUpperCase` can make a text longer (`ß` becomes `SS`), while `JavaStrings.ToUpper` keeps the length.
- CitationEntry.java is not part of this model. The sentinels `NOT_IN_CITATION_SERVICE`, `NOT_FOUND` and `ROBOT` are taken to be the distinct negative numbers -1, -2 and -3; `ScholarCitations.AttemptOutcome` (ROBOT exactly on a robot page) relies on their being distinct and negative.
- BibtexEntry:
  - The second constructor (BibtexEntry.java:85-97), which sets the attributes from given values and then runs `parseAuthor` and `parseTags` without a BibTeX entry, is not modelled: the core never calls it (Export.java:77 uses the first).
  - `BibtexEntry.BibtexEntry.constructor` assigns each attribute what its parse method computes from the initial value. It does not call the parse methods one after another. Each method reads and writes only its own attributes, so the result is the same.
  - The parse methods' `catch` branches for a missing field are modelled as the `None` case of the field lookup.
  - The dead `catch` branch at BibtexEntry.java:238 compares a list with a string and never fires; it is not modelled.
  - `getCitationsPerYear` needs the clock and double division; it is not modelled.
  - The deprecated `getOldPDFPath` and `getOldRelativePDFPath` are not modelled.
  - The `toString` methods are not modelled.
- BibtexEntry.ToURL: the iteration order of the HashMap is a parameter `order` that lists every key once. Its properties are proved for every order.
- Export:
  - The entries are values in a sequence (the LinkedHashMap in insertion order). `readVenues` writes the renamed venue into the entry, as the source writes the shared `BibtexEntry` object. Aliasing with other holders of the same object is not modelled.
  - `Export.Export.RenameFiles` models the corrected loop, which stops on a round without a pair. The loop as written is `RenameOutcome` with an unguarded `Session`; see Findings.
  - The static fields are the fields of one `Export` object.
- LatexPublisher:
  - The writes are the returned sequence of written strings.
  - `allowDocsComments` is a parameter of the line loop.
  - `processDirectory`, the temporary file, its deletion, and the command-line wiring are not modelled.
  - `validate`'s `assert` is the `Valid()` precondition and postcondition of `Apply`.
- Ini:
  - `fromFile` is file I/O and is not modelled. The lines of the file are the input of `FromLineStream`.
  - The message printed for a skipped line is not modelled.

## Findings

| source | as written | input that shows it | evidently intended | confidence | as-written member | corrected member |
|---|---|---|---|---|---|---|
| MibTeX/src/de/mibtex/export/Export.java:207 | When `missing` is empty and files remain, no pair is selected, `availableFile` stays null, and `availableFile.getName()` throws a NullPointerException before the null check at line 209 | every entry has its PDF (or is `misc`/`book`) and the folder holds one PDF more than there are entries | stop the loop when no pair was selected, and leave the stray files reported as available | not executed | Export.StrayFileFails | Export.StrayFileReported |
