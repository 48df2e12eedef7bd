# stumptown-content page generator, modelled in Dafny

This project models `generator.js` of the stumptown-content repository: the
`Generator` class that turns one API source page (markdown) into the set of
MDN output pages. The pages are:

- one interface page;
- a constructor page, when the source has constructor text;
- one page per member listed in the events, methods and properties sections.

After building the pages, the generator substitutes the shared
`[[shared:interface]]` variable into every page and writes them all out.

The project has five modules:

- **`Text`** (`text.dfy`): the JavaScript string operations the generator
  relies on, over `seq<char>`:
  - `indexOf`, `includes`;
  - `split` on a string separator, and its inverse `Join`;
  - `replace` with a string pattern, which replaces only the first
    occurrence;
  - `trim`, with the ECMAScript white-space set;
  - `toLowerCase`.
- **`ReaderComments`** (`reader_comments.dfy`): `stripReaderComments`, i.e.
  the regular expression `\*\*When this feature ships[^*]*\*\*` without the
  global flag, written as a leftmost-match search.
- **`MemberList`** (`member_list.dfy`): what `_splitList` computes from the
  lines of a section, given as a specification function `Members`.
- **`Pages`** (`pages.dfy`):
  - the parsed source page;
  - the collaborators (markdown renderer, source-page parser, page class), as
    functions whose bodies are not modelled;
  - the output page record;
  - the anchor links;
  - how each page is built;
  - `Assemble`, the whole ordered page sequence of a run, with its layout
    lemmas;
  - `SubstituteAll`, the shared-variable pass.
- **`Generation`** (`generator.dfy`): the `Generator` class itself, holding a
  `pages` field that its methods extend and rewrite in place. Each method is
  proved against the specification functions of `Pages` and `MemberList`.

## Model

| member | source | states |
|---|---|---|
| Text.IndexOfSpec | generator.js:132 | `indexOf` returns the leftmost occurrence of the pattern; it returns none only when the pattern occurs nowhere (the basis of `includes`) |
| Text.IndexFromSpec | generator.js:132 | a search from `from` finds an occurrence at or after `from` and skips none before it |
| Text.SplitJoin | generator.js:133 | `split` loses nothing: joining the parts with the separator gives back the line |
| Text.SplitPartsClean | generator.js:133 | no part of a `split` contains the separator, so the line is cut at every occurrence |
| Text.SplitCount | generator.js:132-133 | a line that includes the separator splits into at least two parts, and a line that does not splits into itself alone |
| Text.SplitHead | generator.js:38 | when the separator occurs, the line opens with the first part and the separator, and the other parts are the split of what follows |
| Text.SplitSecond | generator.js:133-134 | the second part is the text between the first and the second separator (or the end of the line), at the position right after the first part and the separator |
| Text.JoinedSecond | generator.js:133-134 | the same position facts for any parts that join back into the line |
| Text.ReplaceFirstSpec | generator.js:134 | `replace` with a string pattern leaves a text without the pattern unchanged; otherwise it swaps exactly the leftmost occurrence and keeps the text on either side |
| Text.TrimStartSpec | generator.js:134 | the leading-space pass keeps a suffix that does not start with white space and drops only white space |
| Text.TrimEndSpec | generator.js:134 | the trailing-space pass keeps a prefix that does not end with white space and drops only white space |
| Text.TrimSpec | generator.js:134 | `trim` returns the slice of the text that neither starts nor ends with white space, and only white space is cut on either side |
| Text.Lower | generator.js:75 | `toLowerCase` keeps the length and lower-cases character by character |
| Text.LowerIs | generator.js:118 | a text that is the lower-casing of another character by character is its `toLowerCase` |
| ReaderComments.NonStarRun | generator.js:142 | the greedy `[^*]*` run contains no `*` and stops at a `*` or at the end |
| ReaderComments.MatchAt | generator.js:142 | a match found at a position is a whole match of the notice pattern |
| ReaderComments.MatchAtComplete | generator.js:142 | every match of the pattern that starts at a position is the one `MatchAt` finds (backtracking finds no other) |
| ReaderComments.FindNotice | generator.js:142 | the search returns the smallest start position at which a match begins |
| ReaderComments.NoMatchBefore | generator.js:142 | no notice starts before a bound when `MatchAt` finds none there |
| ReaderComments.StripReaderComments | generator.js:141-144 | the text is unchanged exactly when it holds no notice; otherwise the leftmost notice is cut out and the text on either side is kept as it is |
| MemberList.Entry | generator.js:133-135 | an entry has as many elements as the line has parts, and at least two |
| MemberList.Members | generator.js:129-139 | at most one entry per line, and each entry has a name and a body |
| MemberList.HeaderIndices | generator.js:131-132 | the recorded positions are lines that contain the delimiter |
| MemberList.HeaderIndicesExact | generator.js:131-132 | the header positions increase, and they are exactly the lines containing "\`**" |
| MemberList.MembersFollowHeaders | generator.js:129-139 | entry `k` is built from the `k`-th delimiter line; there is one entry per such line, in input order, and no others (duplicate names are kept) |
| MemberList.NoHeadersNoMembers | generator.js:129-139 | a section has no entries exactly when none of its lines contains the delimiter |
| MemberList.EntryParts | generator.js:133-134 | the name is the text before the first delimiter and contains none. The body is the text between the first and the second delimiter (or the end of the line), with its first line feed removed, then trimmed. Later parts are carried along unchanged |
| Pages.PageKindIsLowerType | generator.js:118 | a member page's kind is the lower-cased type string, and it is never "interface" or "constructor" |
| Pages.InterfaceName | generator.js:38 | the interface name is a prefix of the file name that contains no ".md". It is the whole name exactly when there is no ".md", and otherwise it is followed by the first ".md" |
| Pages.Links | generator.js:75-122 | the interface anchor is a proper prefix of the constructor and member anchors. Two member anchors agree exactly when their short names agree up to case. A member anchor equals the constructor anchor only for a member whose short name lower-cases to "constructor" |
| Pages.InterfacePage | generator.js:66-78 | the interface page carries the interface name and the kind "interface" |
| Pages.ConstructorPage | generator.js:80-90 | the constructor page carries the interface name and the kind "constructor" |
| Pages.MemberPage | generator.js:117-125 | a member page is named after element 0 of its entry and has the lower-cased type as its kind |
| Pages.MemberPages | generator.js:113-127 | one page per entry: page `k` is the page of entry `k` |
| Pages.MemberPagesSnoc | generator.js:117-125 | one more entry appends exactly its page |
| Pages.SectionEntries | generator.js:92-111 | every entry of a section has a name and a body |
| Pages.SectionPages | generator.js:92-111 | a section yields one page per split entry, in split order |
| Pages.HasConstructor | generator.js:82 | the truthiness test on the constructor text (present and non-empty); `Pages.ConstructorPages` and `Pages.AssembleConstructorKind` carry its property |
| Pages.InsertHeaderMacros | generator.js:70 | the header-macro insertion; `Pages.InsertHeaderMacrosSpec` carries its property |
| Pages.InsertHeaderMacrosSpec | generator.js:70 | text without "---<" is unchanged. Otherwise the macros are inserted only at the leftmost "---<", between the dashes and the "<", and the text on either side is kept |
| Pages.WrapSummary | generator.js:83 | the summary paragraph around the constructor text; `Pages.WrapSummaryUnwrap` carries its property |
| Pages.WrapSummaryUnwrap | generator.js:83 | the constructor text can be read back out of the wrapped paragraph, and two texts wrap alike exactly when they are equal |
| Pages.ConstructorPages | generator.js:81-82 | there is one constructor page when the constructor text is present and non-empty, and none otherwise |
| Pages.Assemble | generator.js:41-46 | the page sequence of one run before the shared-variable pass; its layout is stated by `Pages.AssembleFirst`, `Pages.AssembleHead`, `Pages.AssembleEvents`, `Pages.AssembleMethods`, `Pages.AssembleProperties`, `Pages.AssembleInterfaceKind` and `Pages.AssembleConstructorKind` |
| Pages.AssembleFirst | generator.js:41-42 | the first page of a run is the interface page |
| Pages.AssembleHead | generator.js:41-46 | a run has one page per member entry plus the interface page, plus the constructor page when there is a constructor text. The interface page comes first, and the constructor page second when present |
| Pages.AssembleEvents | generator.js:44 | the event handler pages follow the head, in split order |
| Pages.AssembleMethods | generator.js:45 | the method pages follow the event handler pages, in split order |
| Pages.AssembleProperties | generator.js:46 | the property pages end the run, in split order |
| Pages.KindsBehindHead | generator.js:41-46 | in an interface page, optional constructor page and member pages, the kinds "interface" and "constructor" occur only at positions 0 and 1 |
| Pages.SectionKinds | generator.js:118 | no section page is an interface or constructor page |
| Pages.AssembleInterfaceKind | generator.js:41-46 | exactly one page of a run, the first, is an interface page |
| Pages.AssembleConstructorKind | generator.js:41-46 | a run has a constructor page exactly when there is a constructor text, and then only at position 1 |
| Pages.OnlyInterface | generator.js:41-46 | a source with only an interface text yields the interface page alone |
| Pages.SubstituteAll | generator.js:51-55 | the variable is replaced in every page. Nothing is added, dropped or reordered, and names and kinds are unchanged |
| Generation.Generator.constructor | generator.js:31-39 | the source is parsed from the `content/en-US/api/` path, the page list starts empty, and the interface name is the file name before its first ".md" |
| Generation.Generator.Generate | generator.js:41-49 | the page list becomes the substituted `Assemble` sequence appended to the earlier pages, and all of them are written. The list is never empty, so the message always names the directory of its first page. On a fresh generator that page is the substituted interface page |
| Generation.WrittenMessage | generator.js:61-62 | the text logged after writing; `Generation.WrittenMessageNames` carries its property |
| Generation.WrittenMessageNames | generator.js:61-62 | the logged text is the fixed header followed by the first page's directory. Two messages agree exactly when the directories do |
| Generation.Generator.ReplaceVariable | generator.js:51-55 | in-place substitution in every page, equal to `SubstituteAll` of the old list |
| Generation.Generator.WriteContent | generator.js:57-64 | every page is written, in order. The message names the first page's directory, and there is none exactly when the list is empty |
| Generation.Generator.MakeInterface | generator.js:66-78 | exactly the interface page is pushed |
| Generation.Generator.MakeConstructor | generator.js:80-90 | the constructor page is pushed when there is a non-empty constructor text; otherwise nothing changes |
| Generation.Generator.MakeEvents | generator.js:92-97 | the event handler pages of the section are pushed, none when it is missing |
| Generation.Generator.MakeMethods | generator.js:99-104 | the method pages of the section are pushed, none when it is missing |
| Generation.Generator.MakeProperties | generator.js:106-111 | the property pages of the section are pushed, none when it is missing |
| Generation.Generator.RenderList | generator.js:113-127 | the result is the member pages of the entries `_splitList` returns, in order |
| Generation.Generator.SplitList | generator.js:129-139 | the loop returns `Members` of the lines |

## Left out

- Input and output are not modelled:
  - reading the source file and parsing it (`SourcePage`);
  - writing pages (`HTMLPage.write`);
  - `console.log`.

  The parsed page, each page's directory and the written message are values.
  The pages written are returned in order.
- `Finder` and the IDL lookup in the constructor are not modelled. The IDL
  result is stored and never used by the core, and `mdn-helper` is not part
  of this model.
- The markdown renderer and the page class are collaborators in
  `Pages.Collaborators`, given as functions with no body:
  - `markdown-it` rendering;
  - `HTMLPage` template loading, `replaceContent`, `append`, `inject`,
    `replaceString`, `shortName` and `mdnDirPath`.

  Their results are whatever those functions return. Whether
  `replaceString` replaces one occurrence or all is not modelled.
  `shortName` is taken to depend only on the page's name and kind.
  `mdnDirPath` is taken to depend on the whole page (name, kind and text)
  as it stands when the pages are written, after the shared-variable pass.
- The contents of `HEADER_MACROS`, `SPEC_TABLE` and `COMPAT_TABLE` are left
  open: they are fields of the collaborator record.
- A page is modelled as a value (name, kind, text). Each in-place mutation
  of an `HTMLPage` object becomes a new value stored back into the list.
  Aliasing between page objects is therefore not modelled; the generator
  creates a fresh object for every page, so there is none to model.
- Text.ReplaceFirst: `$` patterns in the replacement string are not
  interpreted. None of the generator's replacement strings contains `$`,
  but `HEADER_MACROS` comes from elsewhere.
- Text.Lower: lower-cases ASCII letters only; full Unicode case mapping is
  not modelled.
- Strings are sequences of characters, not UTF-16 code units.
- A section is either missing (`None`, the falsy case) or a sequence of
  lines. An empty array is truthy in JavaScript, so it still goes through
  `_renderList` and yields no pages. A section that is a plain string
  (iterated by index in `_splitList`) is not modelled.
- The constructor text is falsy when it is missing or empty
  (`HasConstructor`).
- Generation.Generator.WriteContent: with an empty page list the source
  throws when it reads `mdnDirPath` of a missing first page. The model
  returns no message instead. Within `Generate` the list is never empty.
- Element 1 of a split entry is replaced by its rendered text in place
  (`m[1] = mi.render(m[1])`). The model renders it into a local copy of
  the entry, since the list is not used afterwards.

## Behaviour worth noting

- `_splitList` splits the line at every "\`**", not only at the first. The
  body is therefore only the text between the first and the second
  delimiter, and further parts are kept but unused (`MemberList.EntryParts`).
- The reader-comment pattern stops at the first `**` after the opening
  phrase. For "\*\*When this feature ships:\*\* …" only the bold phrase
  itself is removed.
- Member anchors use the page's short name, lower-cased, not the entry's
  name.
