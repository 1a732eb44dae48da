# mdconf in Dafny

A model of `mdconf`, a Go package for a Markdown-flavoured configuration format. A document is a
tree of sections. A header line of `#` characters opens a section one or more levels deep. A line
`+ key: value` stores a value in the current section. A value whose line ends in `\` goes on over
the following lines. The package parses such text into a tree of `*MDConfSection` objects, writes
a tree back as text, and queries and changes the tree along paths of section titles.

The model keeps the form of the Go code:

- **Data.** `MDConfSection` is a Dafny class with the four Go fields. A ghost `Repr` holds the
  objects it owns, `Valid()` says the tree is a strictly owning tree, and `Model()` gives its
  value as the datatype `Tree.Section`. The line reader `trueLineReader` is also a class,
  `Reader.TrueLineReader`. Its state as a value is `Reader.ReaderState` (unread input and
  pushback stack), and the functions `Read` / `Unread` say what its methods do to it.
- **Parser** (`parseInner`, `Parse`, `ParseString`). These are methods that read from the
  reader object and update section objects in place. They are proved against the pure
  `Parser.ParseLoop`, which is parseInner as a function over `ReaderState`.
- **Printer** (`toString`, `ToString`). These are methods writing into a `Builder` (the
  `strings.Builder`). Go visits map keys in an unspecified order, so the text is specified by
  `Printer.Render(t, lay)`, where the `Layout` is the key order the run took.
- **Query and mutation API** (`LocalQueryKey` … `LocalAddSection`). These are methods on
  possibly-null section objects, proved against the value-level functions of `QuerySpec`:
  `QueryKeyOf`, `SetKeyOf`, `LocalAddOf` and `AddSectionOf`.
- **Helpers.** The escaping codec (`escapeValue`, `unescape`) is in `Codec`. The two regular
  expressions, `strings.TrimSpace`, `strings.Split` and `strings.Join` are in `LineSyntax`.
- **Proved properties.** `ParseProps`, `QuerySpec` and `RoundTrip` hold what the package
  promises: the shape of what parseInner builds and where it stops reading, each kind of line,
  level skips, query-after-set, idempotent section creation, and the round trip
  `ParseDoc(Render(t, lay)) == t`.
- **A session.** `Scenarios` runs TestSetKeyAddSection (main_test.go:240-259) on the objects. Its
  outcome follows from the contracts alone, including that a section object returned by a query
  is shared with the tree.

Where the design description and the code disagree, the model follows the code on the points
below. Where the code is evidently wrong (see "## Findings"), the model states the code as
written in a member of its own, and the parser and printer use the corrected behaviour:

- **Multi-line values.** The line that ends a multi-line value is not part of the value: the
  stack is joined without it (main.go:72). So `+ k: a\`, `b\`, `c` stores `"a\nb"`; see
  `ParseProps.ThreeLineValue`.
- **Escape/unescape inverse.** `unescape(escapeValue(s)) == s` needs `s` free of backslashes as
  well as line breaks, because `unescape` also collapses backslashes that were in `s`.
- **Titles and keys.** Header titles and keys are taken verbatim: neither is unescaped on read
  nor escaped on write.
- **Last line.** A last line without a line break is lost (`ReadString` returns it with
  `io.EOF`, and `readLine` drops it); see `ParseProps.LastLineDropped`.

## Model

| member | source | states |
|---|---|---|
| Codec.IsWhite | main.go:46-48 | isWhite, the byte test of the trimming loop; what it accepts is stated by IsWhiteWhitespaceStr |
| Codec.IsWhiteWhitespaceStr | main.go:45-48 | isWhite accepts exactly the seven characters of whitespaceStr |
| Codec.Unescape | main.go:50-53 | replacing every `\x` by `x` never makes the string longer |
| Codec.UnescapePair | main.go:50-53 | a backslash before any character but a line break is dropped and that character kept literally |
| Codec.UnescapePlain | main.go:50-53 | a string without backslashes is left as it is |
| Codec.UnescapeAppend | main.go:50-53 | unescaping distributes over a backslash-free prefix |
| Codec.EscapeValue | main.go:151-171 | "" stays ""; the value is unchanged exactly when it is empty or neither end is whitespace; the result never starts with whitespace, a whitespace last character is always preceded by a backslash, and at most two characters are added |
| Codec.EscapeValueLength | main.go:151-171 | exactly one backslash is added per whitespace end (the last only when the length is at least two) |
| Codec.EscapeValueLast | main.go:159-160 | the last character is kept, with a backslash before it when it is whitespace |
| Codec.EscapeValueEnd | main.go:151-171 | for a backslash-free value the result does not end in a backslash, so the parser does not read it as a continuation |
| Codec.EscapeBothEnds | main.go:154-155 | with whitespace at both ends each end gets its own backslash |
| Codec.EscapeNoNewline | main.go:151-171 | escaping adds no line break |
| Codec.UnescapeEscapeValue | main.go:151-171 | unescape inverts escapeValue on every value without backslash or line break |
| Codec.UnescapeBothEnds | main.go:154-155 | unescape recovers a value whose two whitespace ends were escaped |
| Codec.UnescapeWrapped | main.go:50-53 | unescaping `\a` + mid + `\b` gives a + mid + b |
| LineSyntax.TrimLeftSpace | main.go:77 | strips exactly the leading whitespace: what is removed is all whitespace and what is left does not start with it |
| LineSyntax.TrimRightSpace | main.go:77 | strips exactly the trailing whitespace, leaving a prefix that does not end in it |
| LineSyntax.TrimSpace | main.go:77-79 | the trimmed line is empty exactly when the line is all whitespace, and otherwise starts and ends with non-whitespace |
| LineSyntax.SkipSpaces | main.go:55-56 | `\s*` consumes the maximal run of RE2 `\s` characters |
| LineSyntax.HashesEnd | main.go:55 | `#+` consumes the maximal run of '#' |
| LineSyntax.KeyEnd | main.go:56 | the key group ends where the rest of the pattern can match a colon, and it finds such an end whenever the key may end there |
| LineSyntax.MatchKV | main.go:56 | a match means the line holds '+' and ':'; the value group is a suffix of the line that does not start with `\s` |
| LineSyntax.MatchHeader | main.go:55 | a match has at least one '#', and its title is a suffix of the line that does not start with `\s` |
| LineSyntax.Repeat | main.go:174 | strings.Repeat gives n copies of the character |
| LineSyntax.NewlineFrom | main.go:30 | ReadString('\n') stops at the first line break from the position, if there is one |
| LineSyntax.NewlineAt | main.go:30 | the first line break is found whatever comes after it |
| LineSyntax.Split | main.go:177 | strings.Split on "\n" gives at least one fragment, none containing a line break |
| LineSyntax.Join | main.go:72 | strings.Join with "\n", which joins the fragments of a multi-line value; JoinSplit and SplitJoin state it is the inverse of Split |
| LineSyntax.JoinSplit | main.go:177 | joining the fragments with "\n" gives the string back |
| LineSyntax.SplitJoin | main.go:72 | splitting what strings.Join wrote gives the break-free fragments back |
| LineSyntax.SplitOne | main.go:177-178 | a value splits into a single fragment exactly when it has no line break |
| LineSyntax.SplitOfNoNewline | main.go:177 | a break-free value splits into itself alone |
| LineSyntax.SplitPrefix | main.go:177 | splitting a + "\n" + b gives a followed by the fragments of b |
| LineSyntax.LastNonWhite | main.go:96-97 | the backward loop stops at the last non-white index at or before i, or at -1 when all are white |
| Reader.Read | main.go:24-33 | readLine pops the pushback stack first; otherwise it returns the next line without its break and never un-consumes input; at the end of input (a last unterminated line included) it reports EOF and leaves nothing |
| Reader.Unread | main.go:34-36 | unreadLine adds exactly one line to the pending input |
| Reader.ReadUnread | main.go:24-36 | a line pushed back is the next line read, and the reader is left as before the push |
| Reader.ReadFreshLine | main.go:30-32 | with nothing pushed back, the next line is the text before the first break, which is consumed |
| Reader.TrueLineReader.constructor | main.go:18-23 | a new reader has the whole input and an empty stack |
| Reader.TrueLineReader.ReadLine | main.go:24-33 | the method returns the line and leaves the state `Read` gives; "" with not ok at EOF |
| Reader.TrueLineReader.UnreadLine | main.go:34-36 | the method pushes the line as `Unread` gives |
| Tree.Int8 | main.go:115 | the int8 conversion gives the value in [-128, 128) congruent modulo 256, unchanged when it already fits |
| Tree.FindChild | main.go:229-237 | the index of the first child with that title, or none when no child has it |
| Tree.Descend | main.go:228-239 | the section the descent loops reach by first-match titles, none when a title is missing; ChainDescend and ChainTarget tie it to the objects the loops visit |
| Tree.ReplaceAt | main.go:292-295 | the tree with the section at a path replaced; UpdateAlongPath states that an in-place change shows from the root this way, DescendReplace that the path then reaches the replacement |
| Tree.FindChildAppended | main.go:343-349 | a child appended under a title no earlier child has is the one that title finds |
| Tree.SetValue | main.go:295 | the map holds the new value at the key and every other entry unchanged; the map exists afterwards; nothing else changes |
| Tree.WithMap | main.go:83-85 | a nil map becomes an empty one; entries and all else are kept |
| Tree.AppendChild | main.go:130 | the child slice becomes the old one plus the new child, and is non-nil afterwards |
| Tree.MDConfSection.constructor | main.go:124-129 | a new section with the given level and title, nil map and nil subsection |
| Tree.MDConfSection.Model | main.go:38-43 | the value of a section carries its level, name and map, and one child value per subsection pointer |
| Tree.MDConfSection.ChildValid | main.go:42 | each subsection is owned by its parent and is itself a well-formed tree not containing the parent |
| Tree.MDConfSection.Put | main.go:301-304 | storing a value in place changes the section's value exactly as SetValue does |
| Tree.MDConfSection.MakeMap | main.go:83-85 | making the map in place changes the value exactly as WithMap does |
| Tree.MDConfSection.Append | main.go:121-130 | appending a child in place changes the value exactly as AppendChild does, adds that very object at the end of the subsection slice, and leaves the child as it was |
| Tree.MDConfSection.Chain | main.go:228-239 | the objects visited by the descent loop: one per path element plus the receiver, all owned by it |
| Tree.MDConfSection.ChainDescend | main.go:228-239 | the pointer descent succeeds exactly when the value descent does |
| Tree.MDConfSection.ChainTarget | main.go:228-239 | the object the descent reaches is well formed and its value is the value descent's result |
| Tree.MDConfSection.UpdateAlongPath | main.go:292-295 | a change in place inside the section at the end of a path (its own objects changed or grown by fresh ones, the sections above only owning the new objects) shows from the root as that section replaced at that path |
| Tree.MDConfSection.ChainKeptAlong | main.go:316-328 | after such a change, when the section changed keeps its title, the descent of the path still passes through the same objects and ends at it |
| Tree.MDConfSection.ChainKept | main.go:319-325 | after such a change, the first step of the descent still picks the same child object, so the rest of the descent is the child's own |
| Tree.ChildNamed | main.go:231-236 | the inner `range` loop picks the first subsection object with that name |
| Tree.ChildNamedModels | main.go:231-236 | the first object with the title is the first child value with the title |
| Parser.TrimmedValueAsWritten | main.go:96-108 | the trimming as written, with the byte index of the code (0 only for a one-byte first character), yields a prefix of the value |
| Parser.TrimmedValue | main.go:96-108 | the trimming with the intended test keeps a prefix: empty exactly when the value is all white; otherwise it ends in non-white or in an escaped white; only white is dropped |
| Parser.TrimmedValueOneChar | main.go:98 | as written "x", "x  " and `\ ` are stored as ""; with the intended test they are kept; "é " keeps "é" either way, its byte index being 1 |
| Parser.TrimmedValueAgree | main.go:96-98 | the code as written and the intended trimming agree exactly when the last non-white character is not the first, or the first takes more than one byte |
| Parser.TrimmedValueTrailing | main.go:96-105 | trailing white after a non-white character is removed |
| Parser.TrimmedValueEscapedEnd | main.go:99-101 | one escaped white character survives the trimming with its backslash |
| Parser.LastNonWhiteAt | main.go:96-97 | the backward loop stops at the last non-white index |
| Parser.TrimPadded | main.go:96-108 | trimming an escaped value padded with white gives the escaped value back |
| Parser.ReadBackValue | main.go:88-109 | a written value padded with white is read back as the original value |
| Parser.SingleValue | main.go:95-108 | what a one-line value stores: the corrected trimming, then unescape; ReadBackValue states a written value reads back through it |
| Parser.Ignored | main.go:77-80 | a line whose trimmed form is empty or starts with `//`; IgnoredLine and NotIgnored state its effect and its bounds |
| Parser.Finish | main.go:133-135 | at the end of input a pending multi-line value is stored joined; LoopRead states the loop ends this way |
| Parser.LineEffect | main.go:66-116 | what one line does in each mode; ApplyLine proves the in-place method does it, and the ParseProps lemmas state each kind of line |
| Parser.KVEffect | main.go:82-111 | what a key line does: "" for an empty value, a new multi-line value after a final `\`, else the trimmed, unescaped value; ApplyKV and KVLine state it |
| Parser.ParseDoc | main.go:139-149 | the tree Parse builds from a whole input; Parse is proved to return it, and RenderParse states the round trip |
| Parser.TrimValue | main.go:96-108 | the method's loop computes TrimmedValue |
| Parser.ParseLoop | main.go:58-137 | parseInner never leaves more unread input than it started with |
| Parser.ParseStep | main.go:66-131 | handling one line adds at most the one pushed-back line |
| Parser.LoopRead | main.go:63-65 | each round reads one line; end of input ends the loop and stores a pending multi-line value |
| Parser.StepNext | main.go:66-112 | a line that is not a header lets the loop go on with its effect |
| Parser.StepUp | main.go:117-120 | a header at the current level or above is pushed back and the section returned unchanged |
| Parser.StepDown | main.go:121-130 | a deeper header starts a child parsed from the next line on, appended before the loop goes on |
| Parser.ApplyKV | main.go:82-111 | a `+ key: value` line stores "" for an empty value, starts a multi-line value when it ends in `\`, else stores the trimmed, unescaped value |
| Parser.ApplyLine | main.go:67-113 | the in-place effect of one line: continuation, end of a multi-line value, ignored line, key line, or the header it reports |
| Parser.Descend | main.go:121-130 | the in-place parse of a child section, appended to the current one |
| Parser.OnHeader | main.go:113-131 | the header is pushed back and the call returns, or its section is parsed and appended |
| Parser.Dispatch | main.go:66-131 | one round of the loop on the objects does what ParseStep says |
| Parser.ParseInner | main.go:58-137 | parseInner on the section object and the reader object yields the section and reader state of ParseLoop |
| Parser.ParseSection | main.go:124-130 | a fresh child section is parsed as ParseLoop says |
| Parser.Parse | main.go:139-149 | Parse returns a fresh, well-formed tree whose value is the parse of the input |
| Parser.ParseString | main.go:206-209 | ParseString is Parse of the string |
| ParseProps.LoopExtends | main.go:58-137 | parseInner keeps level, name, old children and a non-nil map or slice, and appends only deeper children |
| ParseProps.StepExtends | main.go:66-131 | one line never removes anything from the section |
| ParseProps.NextKeeps | main.go:67-112 | a line that is not a header changes only the map |
| ParseProps.EffectKeeps | main.go:67-112 | a non-header line keeps the level, name and children, and a map once made stays |
| ParseProps.KVKeeps | main.go:82-111 | a key line leaves a non-nil map |
| ParseProps.AppendExtends | main.go:130 | appending a deeper child extends the section |
| ParseProps.ExtendsTrans | main.go:58-137 | extension composes across successive lines |
| ParseProps.LoopEnds | main.go:63-65 | parseInner returns only at the end of the input or with a header at its level or above pushed back |
| ParseProps.StepEnds | main.go:117-120 | the same holds once a line has been read |
| ParseProps.LineStep | main.go:64 | a fresh line is read up to its break and handled |
| ParseProps.LastLineDropped | main.go:30-31 | text after the last break is never parsed: the loop finishes as at the end of input |
| ParseProps.IgnoredLine | main.go:77-80 | blank and `//` lines leave the section unchanged |
| ParseProps.NotIgnored | main.go:77-80 | a line starting with neither whitespace nor '/' is not ignored |
| ParseProps.KeyEndPlain | main.go:56 | a key of plain characters ends at the first colon |
| ParseProps.MatchKVLine | main.go:56 | `+ key: value` with a plain key matches with exactly that key and value |
| ParseProps.KVLine | main.go:81-112 | such a line has the key-line effect on the section |
| ParseProps.RenderedKVLine | main.go:82-109 | the line written for a single-line value stores that value on reading |
| ParseProps.HashesEndAt | main.go:55 | the run of '#' ends where the first other character is |
| ParseProps.HeaderTextShape | main.go:174 | a header line is n '#', a space and the title |
| ParseProps.MatchHeaderText | main.go:55 | the header regex reads a written header back as its '#' count and title |
| ParseProps.HeaderTextKind | main.go:77-81 | a written header line is neither ignored nor a key line |
| ParseProps.MatchHeaderLine | main.go:113-116 | a header of 1 to 127 '#' is reported with that level and title |
| ParseProps.HeaderDown | main.go:121-130 | a deeper header line opens a child section parsed from the next line |
| ParseProps.HeaderUp | main.go:117-120 | a header at the current level or above is pushed back |
| ParseProps.WrappedHeaderLine | main.go:115 | 128 '#' wrap to level -128 in int8 |
| ParseProps.WrappedHeaderEnds | main.go:115-120 | so such a header never opens a section and ends every section it meets |
| ParseProps.MultiLineGoesOn | main.go:68-71 | a line ending in `\` adds its unescaped text as a fragment |
| ParseProps.MultiLineEnds | main.go:72-74 | any other line stores the fragments joined by "\n", the line itself being dropped |
| ParseProps.ValueTail | main.go:68-74 | after a first fragment a, the lines `b\` and `c` store a + "\n" + b |
| ParseProps.MultiValueStart | main.go:90-94 | a key line ending in `\` starts a multi-line value with its first fragment |
| ParseProps.ThreeLineValue | main.go:90-94 | the text `+ k: a\`, `b\`, `c` stores "a\nb" |
| ParseProps.HeaderToEnd | main.go:121-130 | a deeper header whose section runs to the end appends that section |
| ParseProps.LevelSkip | main.go:113-130 | `# a` then `### b` nests b directly under a with no level-2 section in between |
| Printer.HeaderLine | main.go:174 | the header line; HeaderTextShape and MatchHeaderText state its shape and that the parser reads it back |
| Printer.KeyLine | main.go:179 | `+ k: e`; MatchKVLine states that the parser reads it back |
| Printer.KeyText | main.go:176-189 | the corrected text of one key; KeyTextLines states its lines and KeyTextAgree where it agrees with the code as written |
| Printer.KeysText | main.go:176-190 | the key lines in visit order; KeysTextSnoc and KeysRound state the order and the read-back |
| Printer.ValuesText | main.go:175-192 | the key lines and the blank line, only for a non-nil map; ValuesRound states the read-back |
| Printer.KidsText | main.go:193-198 | the children's text, each followed by a blank line; KidsTextPrefix and KidsRound state it |
| Printer.Render | main.go:173-199 | the text toString writes for a key order; ToStringInto proves the method writes it, RenderParse that it parses back |
| Printer.InteriorAsWritten | main.go:181-184 | the interior loop as written, with fuel; InteriorNeverEnds states it never ends on three fragments or more |
| Printer.KeyTextAsWritten | main.go:176-189 | one key's text as written, with fuel; TwoFragmentsOneLine and KeyTextAgree state how it differs from KeyText |
| Printer.KeyTextLines | main.go:176-189 | the corrected lines for a key: the first fragment escaped after `+ k: `, every fragment but the last ended by `\`, one line per fragment |
| Printer.OneLine | main.go:188 | a single-line value is written as one line |
| Printer.MultiLines | main.go:178-186 | the corrected multi-line text splits into its fragments as lines |
| Printer.NoNewlineKeyLine | main.go:188 | a key line holds no break when key and escaped value hold none |
| Printer.InteriorLines | main.go:181-184 | the corrected interior loop writes one continued line per fragment |
| Printer.InteriorSnoc | main.go:181-184 | the interior loop writes the fragments in order |
| Printer.KidsTextPrefix | main.go:193-198 | the text of the first n children depends only on their own layouts |
| Printer.InteriorNeverEnds | main.go:181-184 | as written, with three fragments or more the loop never ends |
| Printer.TwoFragmentsOneLine | main.go:179 | as written, "a\nb" under key k is written on one line, `+ k: a\b`; corrected it is two lines |
| Printer.KeyTextAgree | main.go:176-189 | as written and corrected agree on every value without a line break |
| Printer.Builder.constructor | main.go:201 | a new builder is empty |
| Printer.Builder.WriteString | main.go:174 | WriteString appends exactly its argument |
| Printer.KeysTextSnoc | main.go:176-190 | the keys are written one after another in visit order |
| Printer.WriteKey | main.go:176-189 | the method writes the corrected lines of one key |
| Printer.WriteValues | main.go:175-190 | the keys are visited in some order that lists every key of the map once, and the text is their lines in that order |
| Printer.ToStringInto | main.go:173-199 | toString appends the text of the tree for the key orders it took |
| Printer.WriteKids | main.go:193-198 | the children are written in slice order, each followed by a blank line |
| Printer.WriteKid | main.go:194-196 | one child's text and its blank line are appended |
| Printer.ToString | main.go:200-204 | ToString returns the text of the tree under some key order that fits it |
| QuerySpec.QueryKeyOf | main.go:223-244 | QueryKey on values; QueryKey is proved to return it, SetThenQuery and QueryKeyThrough state its laws |
| QuerySpec.SetKeyOf | main.go:275-297 | SetKey on values; SetKey is proved to leave it, SetThenQuery, SetOtherKey, SetKeepsSections and SetKeyThrough state its laws |
| QuerySpec.LocalAddOf | main.go:331-351 | LocalAddSection on values; LocalAddFinds, AddExisting and AddNew state its cases |
| QuerySpec.AddSectionOf | main.go:308-329 | AddSection on values; AddThenFind and AddTwice state its laws |
| QuerySpec.Lookup | main.go:217-220 | a key of the map gives its value, any other key NotFound, a nil map included |
| QuerySpec.DescendAppend | main.go:228-239 | descending p + q is descending p and then q |
| Tree.FindChildSameName | main.go:231-236 | replacing a child by one with the same title keeps which child a title finds |
| QuerySpec.FindChildPrefix | main.go:340-342 | appending children keeps the first match of a title already present |
| QuerySpec.DescendReplace | main.go:292-295 | after replacing the section at a path, descending the path reaches the replacement |
| QuerySpec.ReplaceSame | main.go:292-295 | replacing a section by itself changes nothing |
| QuerySpec.ReplaceAppend | main.go:275-297 | replacing deep inside is replacing the subtree at the prefix |
| QuerySpec.ReplaceKeepsPaths | main.go:308-329 | a replacement keeping the title and the children (or adding some) keeps every path that existed |
| QuerySpec.SetThenQuery | main.go:223-297 | after SetKey on a path, QueryKey on that path gives the value set |
| QuerySpec.SetOtherKey | main.go:292-295 | SetKey leaves every other key of the same section as it was |
| QuerySpec.SetKeepsSections | main.go:275-297 | SetKey neither adds nor removes any section path |
| QuerySpec.QueryKeyThrough | main.go:223-244 | QueryKey from the root through p is QueryKey from the section at p |
| QuerySpec.SetKeyThrough | main_test.go:256-259 | SetKey on a section reached through p is SetKey from the root through p |
| QuerySpec.AddThenFind | main.go:308-329 | after AddSection, the returned section is found at path + [name] |
| QuerySpec.LocalAddFinds | main.go:331-351 | LocalAddSection returns the first child with that title, which then exists |
| QuerySpec.AddTwice | main.go:308-329 | a second AddSection with the same name changes nothing and returns the same section |
| QuerySpec.AddExisting | main.go:340-342 | when a child with the title exists it is returned and the tree is unchanged |
| QuerySpec.AddNew | main.go:343-349 | otherwise a child one level deeper (int8) with no map or children is appended, the rest of the section and every old path kept |
| Query.LocalQueryKey | main.go:215-221 | a nil receiver gives NotFound, otherwise Lookup on the section |
| Query.LocalQuerySection | main.go:246-253 | the first child with that title, or NotFound when there is none (nil receiver or slice included) |
| Query.Follow | main.go:228-239 | the descent loop succeeds exactly when the path exists and stops at the object holding the section at the path |
| Query.FollowStep | main.go:229-237 | one round of the descent loop: a missing child means the whole path is missing |
| Query.StepFacts | main.go:229-237 | the first child with the title is the next object on the path, and none means the path is missing |
| Query.Advance | main.go:231-236 | one step of the pointer descent matches one step of FindChild |
| Query.NoFurther | main.go:237 | once a prefix is missing, the whole path is missing |
| Query.QueryKey | main.go:223-244 | the method returns what QueryKeyOf gives: EmptyKey for an empty path, NotFound for a missing section or key, the value otherwise |
| Query.QuerySection | main.go:255-273 | the method returns the receiver for an empty path, the section at the path when it exists, NotFound otherwise |
| Query.LocalSetKey | main.go:299-306 | EmptySubject on nil; otherwise the map is created if nil and the key set |
| Query.SetKey | main.go:275-297 | EmptySubject on nil; otherwise the tree becomes SetKeyOf's tree, or stays as it was with SetKeyOf's error; the receiver keeps its title |
| Query.SetAt | main.go:292-295 | setting the key on the section reached is setting it at that path of the root |
| Query.LocalAddSection | main.go:331-351 | EmptySubject on nil; otherwise the tree and the section returned are LocalAddOf's, and the object returned is the receiver's child that the title finds, shared with the tree |
| Query.NewChild | main.go:343-349 | the new child is one level deeper (int8), with no map or children, and that object is appended to the subsection slice |
| Query.AddSection | main.go:308-329 | EmptySubject on nil; otherwise the tree and the section are AddSectionOf's, NotFound leaving the tree unchanged; the object returned is the one the descent of path + [name] reaches |
| Query.AddAt | main.go:328 | LocalAddSection on the section reached shows at that path of the root, and the object it returns is reached by path + [name] |
| Query.GrowAt | main.go:328 | growing the section reached changes only it and its ancestors' ownership; the object returned is its child that the title finds |
| Scenarios.SetKeyAddSection | main_test.go:240-259 | keys set on an empty document read back; the section added is found at level 1 with its title; a key set through that object reads back from the root |
| Scenarios.TopKeys | main_test.go:241-249 | two keys set at the top level of an empty document read back with their values |
| Scenarios.NewSection | main_test.go:250-255 | the section added at the top is found by QuerySection, one level down, with its title |
| Scenarios.ThroughSection | main_test.go:256-259 | SetKey on the object QuerySection returned changes the tree seen from the root |
| Scenarios.SetThrough | main_test.go:256 | SetKey on the section object reached by a title is SetKey from the root on the path through that title |
| RoundTrip.StoreAllValues | main.go:82-109 | reading key lines stores every listed key's value and keeps the others |
| RoundTrip.StoreEvery | main.go:175-190 | reading back all keys of a map into a section with none gives that map |
| RoundTrip.BlankLine | main.go:79 | a blank line is skipped |
| RoundTrip.BlanksSkipped | main.go:79 | any run of blank lines is skipped |
| RoundTrip.StopEnd | main.go:117-120 | parsing stops where the next section at this level or above begins |
| RoundTrip.LeftoverFresh | main.go:24-29 | a pushed-back header reads like the same header still in the input |
| RoundTrip.KeysRound | main.go:176-189 | the key lines written for plain keys and one-line values read back as those keys and values |
| RoundTrip.AppendAllShape | main.go:130 | appending children one by one gives the old children followed by the new |
| RoundTrip.RenderBody | main.go:174 | the text of a section is its header line and its body |
| RoundTrip.KidParse | main.go:121-130 | a written child section is parsed back and appended |
| RoundTrip.KidsRound | main.go:193-198 | the written children are parsed back in order |
| RoundTrip.ValuesRound | main.go:175-192 | a section's written key lines are parsed back into its map |
| RoundTrip.OpenedAll | main.go:121-130 | a section is its map plus its children appended |
| RoundTrip.BodyRound | main.go:58-137 | parseInner reads the body toString wrote back into the same section and stops where the next section begins |
| RoundTrip.RenderParse | main.go:139-204 | Parse of ToString's text gives the same tree, for every tree whose text can be read back and every key order |

## Left out

- Streams and errors of `bufio`/`io` are not modelled: the input is a string, and the model treats every read error as the end of input. The code does not: it stops only on `io.EOF` (main.go:65), and on any other error it takes "" as the line and reads on.
- Strings are sequences of Unicode code points, not Go's bytes, and invalid UTF-8 is not modelled. Where the code's byte index matters, at main.go:96-98, `Parser.TrimmedValueAsWritten` and `Parser.TrimmedValueAgree` state it in code points: white space is ASCII, so the scan stops on the same character, whose last byte is at index 0 only when it is the first character and takes one byte.
- Parser.Parse: the tree it returns is that of the corrected trimming (`if i >= 0` at main.go:98, see "## Findings"), through `Parser.SingleValue`. The same holds for every member that stores a one-line value through it: `Parser.KVEffect`, `Parser.LineEffect`, `Parser.ParseStep`, `Parser.ParseLoop`, `Parser.ParseDoc`, `Parser.ApplyKV`, `Parser.ApplyLine`, `Parser.Dispatch`, `Parser.OnHeader`, `Parser.Descend`, `Parser.ParseSection`, `Parser.ParseInner`, `Parser.ParseString` and `RoundTrip.RenderParse`. On a value whose only non-white character is its first and takes one byte, the code stores "" where the model stores that character; `Parser.TrimmedValueAgree` states exactly where the two differ.
- Printer.ToString: the text it returns is that of the corrected key lines (a line break after the first fragment's `\` at main.go:179, and `i` advanced in the loop of main.go:181-184), through `Printer.KeyText`. The same holds for `Printer.Render`, `Printer.WriteKey`, `Printer.WriteValues` and `Printer.ToStringInto`. The code as written is `Printer.KeyTextAsWritten`, and `Printer.KeyTextAgree` states that the two agree on every value without a line break.
- The regular-expression engine is not modelled. The two patterns of main.go:55-56 and the one of main.go:50 are written out as hand matchers, `MatchHeader`, `MatchKV` and `Unescape`.
- `fmt.Sprintf` and the memory of `strings.Builder` are not modelled: the builder is a string field that grows.
- Go's map iteration order is nondeterministic: `Printer.ToString` promises the text for some key order that lists every key once, not a particular one.
- Printer.ToString: requires every level to be non-negative (`Unsigned`), since `strings.Repeat` panics on a negative count (main.go:174). Such levels arise only from int8 wrap-around.
- RoundTrip.RenderParse: holds for `Printable` trees only. Titles and keys are not escaped on write, values with line breaks do not read back (the ending line is dropped), and a non-empty map or child slice is needed for the text to bring back a non-nil one. Each child must also be deeper than its parent and below level 128, and sibling levels must never increase, or the headers would nest differently on reading.
- Codec.Unescape: its own contract is the length bound; what it does is stated by UnescapePair, UnescapePlain, UnescapeAppend and UnescapeEscapeValue.
- Parser.ParseLoop: its own contract is the termination measure; what parseInner computes is its definition, proved equal to the methods and stated by the ParseProps and RoundTrip lemmas.
- Parser.ParseStep: like ParseLoop, its own contract is the measure.
- The in-place behaviour of the printer's interior loop as written (main.go:181-184) is not run as a method, because it does not terminate. It is modelled with fuel by `Printer.InteriorAsWritten`, and the methods use the corrected loop.
- Concurrency: the package shares sections through pointers with no locking, and the model treats each call as atomic.
- main_test.go is not modelled beyond TestSetKeyAddSection, which `Scenarios` follows step by step; elsewhere the tests are cited where a lemma states what a test checks.

## Findings

| source | as written | input that shows it | evidently intended | confidence | as-written member | corrected member |
|---|---|---|---|---|---|---|
| main.go:98 | `if i > 0` after the backward whitespace scan | `+ k: x` stores "" for k (also `x  ` and `\ `; not `é`, whose last byte is at index 1) | `if i >= 0`: a value whose only non-white character is its first keeps it | not executed | Parser.TrimmedValueOneChar | Parser.TrimmedValue |
| main.go:181-184 | `for i < len(ss)-1` never increments `i` | a value with two line breaks, "a\nb\nc": toString never returns | advance `i` after each interior fragment | not executed | Printer.InteriorNeverEnds | Printer.KeyText |
| main.go:179 | the first fragment is followed by `\` with no line break | value "a\nb" under k is written as the single line `+ k: a\b` | `\` and a line break after the first fragment, as for the interior fragments | not executed | Printer.TwoFragmentsOneLine | Printer.KeyText |
