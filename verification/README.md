# fidl2adoc in Dafny

fidl2adoc turns Franca IDL models (packages, type collections, interfaces
and their attributes, methods, broadcasts, structs, enumerations, arrays and
maps) into one AsciiDoc document. It walks the parsed model twice with the
same traversal:

- **Pass 1** builds the "used in" index. This is a map from each referenced
  type to the members that refer to it.
- **Pass 2** appends the document lines: section anchors and titles,
  descriptions with their indentation fixed, "See also" links, parameter,
  field and enumerator tables, and "Used in" lines.

The lines are finally joined with newlines.

This project models that core as pure functions over immutable data:

| file | module | contents |
|---|---|---|
| `wrappers.dfy` | `Wrappers` | `Option` |
| `text.dfy` | `Text` | The Python string built-ins the generator relies on: `split('\n')`, `'\n'.join`, whitespace `split()`, `isspace()`, `str(int)`. |
| `indent.dfy` | `Indent` | Both variants of `fix_descr_intent`: the current one and the legacy one in `parse_fidl.py`. |
| `ast.dfy` | `Ast` | The resolved Franca model the parser hands over, comments, anchors and links. |
| `names.dfy` | `Names` | `get_namespace`, `get_type_name`, `adoc_section_title` and `get_adoc_link_from_name`. |
| `references.dfy` | `References` | `add_type_reference` and the `prep_*` handlers (pass 1). |
| `walk.dfy` | `Walk` | `iterate_fidl` and `process_item_lists`, as the sequence of handler calls they make. |
| `render.dfy` | `Render` | `adoc_description`, `adoc_table`, `adoc_type_references`, `adoc_major_section_title`, the `process_*` handlers, enumerator numbering (current and legacy). |
| `pipeline.dfy` | `Pipeline` | The two passes over one traversal and the joined document. |

Types follow the Franca grammar. A type reference is either a primitive or a
reference already resolved to a named type of some namespace, and a typed
element may wrap it in an anonymous inline array. With that shape,
`get_namespace` and `get_type_name` are total.

A member is identified by its kind, namespace and name. The Python code
identifies it by object identity instead: dictionary keys and the `!=` in
`adoc_type_references`.

## Model

| member | source | states |
|---|---|---|
| Indent.LeadingSpaces | fidl2adoc/fidl2adoc.py:25-30 | The count covers exactly the run of `' '` characters the line starts with: all are spaces, and the next character, if any, is not a space. |
| Indent.MinScanSpec | fidl2adoc/fidl2adoc.py:23-34 | The `-1`-sentinel scan stays `-1` or positive. It never exceeds any counted line's indentation, and any value it takes other than the start value is some counted line's indentation. |
| Indent.CommonIndentIsMinimum | fidl2adoc/fidl2adoc.py:23-35 | The stripped indentation is the minimum leading-space count over lines that have leading spaces and are not whitespace-only (all indented lines, for the legacy variant), or 0 when there is no such line. |
| Indent.StartsWithSpaces | fidl2adoc/fidl2adoc.py:38 | `line.startswith(' ' * m)` holds exactly when the line has at least `m` leading spaces. |
| Indent.Dedent | fidl2adoc/fidl2adoc.py:36-41 | One output line per input line. A line with at least `m` leading spaces is `m` spaces followed by its output; any other line is kept. |
| Indent.FixLines | fidl2adoc/fidl2adoc.py:20-41 | Line count is kept. Each line reaching the common indentation loses exactly that many spaces, so its new leading-space count is the old one minus it. Every other line is unchanged. |
| Indent.FixLinesHaveNoBreak | fidl2adoc/fidl2adoc.py:22-43 | Fixed lines contain no newline when the input lines contain none, so joining and splitting them again gives the same lines. |
| Indent.FixIndent | fidl2adoc/fidl2adoc.py:20-43 | Split on newlines, the result is the fixed lines of the description. |
| Indent.FixDescrIntent | fidl2adoc/fidl2adoc.py:20-43 | The current variant keeps the number of lines, and its lines are the current variant's fixed lines. |
| Indent.LegacyFixDescrIntent | fidl2adoc/parse_fidl.py:3-31 | The legacy variant keeps the number of lines, and its lines are the legacy variant's fixed lines. |
| Indent.UnindentedUnchanged | fidl2adoc/fidl2adoc.py:31-43 | A description with no indented line has common indentation 0 and comes back unchanged, in either variant. |
| Indent.SomeLineFlushLeft | fidl2adoc/fidl2adoc.py:31-41 | When some line is counted, at least one counted line ends up with no leading space. |
| Indent.LegacyBlankLineCaps | fidl2adoc/parse_fidl.py:14-17 | In the legacy variant a whitespace-only line of `k` leading spaces caps the common indentation at `k`. |
| Indent.CurrentIgnoresBlankLines | fidl2adoc/fidl2adoc.py:31 | In the current variant, inserting a whitespace-only line anywhere leaves the common indentation unchanged. |
| Indent.CommonIndentOfTwo | fidl2adoc/fidl2adoc.py:23-35 | For two lines, the common indentation is the minimum over the counted lines, or 0 if neither is counted. |
| Indent.RelativeIndentKept | fidl2adoc/fidl2adoc.py:20-43 | Two lines indented by `n > 0` and `n + k` spaces become flush left and `k`-indented: relative indentation is kept. |
| Indent.FirstPassExample | fidl2adoc/fidl2adoc.py:20-43 | On the literal text `"  a\n    b"` the result is `"a\n  b"`: the two-space common indentation is stripped and the extra two spaces of the second line stay. |
| Indent.SecondPassExample | fidl2adoc/fidl2adoc.py:20-43 | On the literal text `"a\n  b"` the result is `"a\nb"`: only the indented line is counted, so its whole indentation is stripped. |
| Indent.NotIdempotent | fidl2adoc/fidl2adoc.py:20-43 | There is a text (`"  a\n    b"`) on which fixing twice gives a different result from fixing once (`"a\nb"` against `"a\n  b"`). |
| Indent.BlankLineExample | fidl2adoc/parse_fidl.py:14-17 | On the literal text `"  \n    a"` the current variant gives `"  \na"` (the blank line is not counted) and the legacy variant gives `"\n  a"` (the blank line caps the indentation at two). |
| Indent.VariantsDisagreeOnBlankLine | fidl2adoc/fidl2adoc.py:31 | The two variants give different results on `"  \n    a"`, a text whose only whitespace-only line is indented. |
| Indent.VariantsAgree | fidl2adoc/fidl2adoc.py:31 | When no indented line is whitespace-only, both variants fix every line the same way. Together with `Indent.VariantsDisagreeOnBlankLine`, the `isspace()` test of fidl2adoc/fidl2adoc.py:31 is the only difference from the legacy loop of fidl2adoc/parse_fidl.py:14-17. |
| Text.Split | fidl2adoc/fidl2adoc.py:22 | `str.split('\n')` returns one more part than there are separators, and no part contains the separator. |
| Text.JoinSplit | fidl2adoc/fidl2adoc.py:22-43 | Joining the split parts gives back the original text. |
| Text.SplitJoin | fidl2adoc/fidl2adoc.py:389 | Splitting the join of separator-free parts gives back the parts. |
| Text.Words | fidl2adoc/fidl2adoc.py:124 | `str.split()` yields only non-empty, whitespace-free words. |
| Text.WordsSplitAt | fidl2adoc/fidl2adoc.py:124 | A whitespace character splits the text: the words of `a + [c] + b` are the words of `a` followed by the words of `b`. |
| Text.OneWord | fidl2adoc/fidl2adoc.py:124 | A non-empty text without whitespace is one word, itself. With `Text.WordsSplitAt`, this fixes the words of any text. |
| Text.WordsKeepLetters | fidl2adoc/fidl2adoc.py:124 | The words, concatenated, are the text with its whitespace removed. |
| Text.NoWordsIffBlank | fidl2adoc/fidl2adoc.py:123-124 | `split()` gives no words exactly when the text is all whitespace. |
| Text.WordsJoin | fidl2adoc/fidl2adoc.py:124-128 | Splitting space-joined words gives back the words. |
| Text.IntToString | fidl2adoc/fidl2adoc.py:243 | `str(int)` is non-empty and starts with `-` exactly for negative values. |
| Text.IntToStringRoundTrip | fidl2adoc/fidl2adoc.py:242-243 | Parsing the printed enumerator value gives back the value. |
| Ast.GetComment | fidl2adoc/fidl2adoc.py:46-51 | There is a comment exactly when the tag is present, and it is the text under the tag. |
| Ast.GetCommentUpdate | fidl2adoc/fidl2adoc.py:46-51 | Setting a tag makes the lookup of that tag return the new text; setting another tag leaves the lookup unchanged; an empty comment map has no comment. |
| Ast.DefOf | fidl2adoc/fidl2adoc.py:81-82 | A named type's identity carries its namespace and name. |
| Names.TypeName | fidl2adoc/fidl2adoc.py:54-74 | A type is displayed as its collapsed type: a primitive by name, a named type as a link to its section. The display is prefixed with `Array of ` exactly for inline arrays. |
| Names.SectionTitle | fidl2adoc/fidl2adoc.py:100-104 | A section title is two lines. The first is `[[` + the member's anchor + `]]`. The second is `=== `, the member's kind name and a space, followed by the member's name and a newline. |
| Names.SeeLink | fidl2adoc/fidl2adoc.py:107-114 | A name becomes a link to `<<namespace-name>>` when the namespace defines it, and stays the bare name otherwise. |
| Names.LinksMatchAnchors | fidl2adoc/fidl2adoc.py:54-104 | Every link to a member lands on the anchor that member's section title declares. This covers the type name of a (possibly array) reference and the "used in" entry. |
| Names.SeeLinkMatchesAnchor | fidl2adoc/fidl2adoc.py:100-114 | A see-also token naming a member of the namespace links to that member's section anchor. |
| References.AddTypeReference | fidl2adoc/fidl2adoc.py:77-86 | The collapsed type's list grows by the referrer at its end, and is created if absent. No other key changes. |
| References.ArgTypes | fidl2adoc/fidl2adoc.py:150 | The argument types in argument order. |
| References.RecordSpec | fidl2adoc/fidl2adoc.py:83-86 | Recording a run of references appends, under every key, exactly the referrers registered for that key, in order. A key is present afterwards exactly when it was before or some registration names it. |
| References.RecordAppend | fidl2adoc/fidl2adoc.py:77-86 | Recording two runs one after the other equals recording their concatenation. |
| References.AddEachRecords | fidl2adoc/fidl2adoc.py:150-168 | An `add_type_reference` loop records the pairs of each type with the referrer. |
| References.PrepareRecords | fidl2adoc/fidl2adoc.py:148-179 | Each `prep_*` handler records exactly its member's sources, in this order: method in-arguments then out-arguments, attribute type, broadcast out-arguments, struct fields, array element, map key then value. Enumerations record nothing. |
| References.ReferrersKeepOrder | fidl2adoc/fidl2adoc.py:84 | Two references to a type recorded in some order appear in its list in that order. |
| Walk.ItemEvents | fidl2adoc/fidl2adoc.py:306-308 | Call `i` is the handler call for item `i`, in the list's namespace: one call per item, in order. |
| Walk.ListEvents | fidl2adoc/fidl2adoc.py:303-308 | The first call is the banner of the first list, and every item call is in the given namespace. The items visited are the concatenation of the lists. |
| Walk.ListEventsBlocks | fidl2adoc/fidl2adoc.py:303-308 | The calls are, list after list, one block per list: the banner call, then the list's item calls. |
| Walk.EventsVisitAll | fidl2adoc/fidl2adoc.py:338-352 | The traversal visits every declared member exactly once, in declaration order. Per package, that is the type collections' structs, enumerations, arrays and maps, then the interfaces' attributes, methods, broadcasts, structs, enumerations, arrays and maps. |
| Render.Description | fidl2adoc/fidl2adoc.py:117-129 | Emits one line for a non-empty description (a newline plus the indentation-fixed text) and one for a non-empty `@see` comment (the see-also line), in that order, and nothing else. |
| Render.SeeTextWords | fidl2adoc/fidl2adoc.py:124-128 | Read back as words, the see-also text is one word per token: the token's link when the namespace defines it, the token itself otherwise. |
| Render.SeeText | fidl2adoc/fidl2adoc.py:124-128 | The see-also text is empty exactly when there are no tokens, and otherwise ends with a space. |
| Render.SeeTextAppend | fidl2adoc/fidl2adoc.py:126-128 | One more token appends its link and one space: every token, the last included, is followed by exactly one space. |
| Render.UnresolvedSeeIsVerbatim | fidl2adoc/fidl2adoc.py:123-129 | When no token resolves, the see-also text has the comment's own words. |
| Render.Table | fidl2adoc/fidl2adoc.py:132-141 | Nothing at all for no entries. Otherwise: the title, the options line, the opening delimiter, the header row, the rows unchanged, and the closing delimiter. |
| Render.ArgRows | fidl2adoc/fidl2adoc.py:182-186 | Every argument contributes at least its cell line, so there are at least as many rows as arguments. |
| Render.ArgRowsOne | fidl2adoc/fidl2adoc.py:185-186 | One argument gives its cell line `"| " + type name + " | " + name + " | "` (spaced bars) followed by exactly its description lines. |
| Render.ArgRowsAppend | fidl2adoc/fidl2adoc.py:182-186 | The arguments are handled one after another: the rows of `a + b` are the rows of `a` followed by the rows of `b`. The broadcast loop at fidl2adoc/fidl2adoc.py:206-210 is the same code and uses the same function. |
| Render.FieldRows | fidl2adoc/fidl2adoc.py:221-225 | Every field contributes at least its cell line. |
| Render.FieldRowsOne | fidl2adoc/fidl2adoc.py:224-225 | One field gives its cell line `"|" + type name + "|" + name + "|"` (bare bars) followed by exactly its description lines. |
| Render.FieldRowsAppend | fidl2adoc/fidl2adoc.py:221-225 | The rows of `a + b` are the rows of `a` followed by the rows of `b`. |
| Render.EnumeratorRows | fidl2adoc/fidl2adoc.py:237-245 | Every enumerator contributes at least its cell line. |
| Render.EnumeratorRowsOne | fidl2adoc/fidl2adoc.py:243-244 | One enumerator printed with value `v` gives `"|" + name + "|" + decimal v + "|"` followed by exactly its description lines. |
| Render.EnumeratorRowsAppend | fidl2adoc/fidl2adoc.py:237-245 | For value lists of matching lengths, the rows of `a + b` with values `va + vb` are the rows of `a` with `va` followed by the rows of `b` with `vb`. The values themselves come from `Render.Numbering`. |
| Render.HeaderRowColumns | fidl2adoc/fidl2adoc.py:139 | The header row, split at the bar character after its leading bar, gives back the column titles. |
| Render.Numbering | fidl2adoc/fidl2adoc.py:239-243 | One value per enumerator. The first is its explicit value, or the start counter if it has none. |
| Render.NumberingNext | fidl2adoc/fidl2adoc.py:241-245 | Each later enumerator gets its explicit value, or one more than its predecessor's value. |
| Render.NumberingImplicit | fidl2adoc/fidl2adoc.py:239-245 | Without explicit values, enumerator `i` is numbered `i` (counting from the start counter). |
| Render.NumberingAfterExplicit | fidl2adoc/fidl2adoc.py:241-245 | After an explicit value `v`, the following implicit enumerators are numbered `v+1`, `v+2`, … |
| Render.EnumeratorValues | fidl2adoc/fidl2adoc.py:237-245 | The counter loop prints exactly the numbering. |
| Render.LegacyComment | fidl2adoc/parse_fidl.py:216-227 | The legacy comment lookup fails exactly when an enumerator has comments but no description. It is empty without comments, and the description otherwise. |
| Render.LegacyEnumeratorRows | fidl2adoc/parse_fidl.py:216-227 | The legacy loop succeeds exactly when no lookup fails. It then gives one row per enumerator, with the same numbering as the current generator and the raw description in the last cell. |
| Render.UsedInEntries | fidl2adoc/fidl2adoc.py:93-97 | There is one line per referrer plus one separator per referrer unequal to the first. The non-separator entries are the referrers' links in order. |
| Render.UsedInEntryAt | fidl2adoc/fidl2adoc.py:93-97 | Entry `i` sits at position `i` plus the number of separators up to and including it, and is referrer `i`'s link. The line just before it is a separator exactly when referrer `i` differs from the first. |
| Render.UsedIn | fidl2adoc/fidl2adoc.py:89-97 | Emits nothing for a type absent from the index. Otherwise: the "Used in" header, then one line per referrer plus one separator per referrer unequal to the first; the non-separator lines are the links of all recorded referrers in order. |
| Render.UsedInEntryPlaced | fidl2adoc/fidl2adoc.py:89-97 | In the whole "used in" line, referrer `i`'s link follows the header at its entry position, and is preceded by a separator exactly when it differs from the first referrer. |
| Render.DifferingCount | fidl2adoc/fidl2adoc.py:95 | The entries unequal to the first number the entries minus the occurrences of the first. |
| Render.UsedInSeparators | fidl2adoc/fidl2adoc.py:95-96 | There are as many separators as entries, minus the occurrences of the first referrer. Hence exactly one fewer than the entries iff the first referrer occurs once. |
| Render.MajorSectionTitle | fidl2adoc/fidl2adoc.py:274-278 | Nothing exactly for an empty list. Otherwise a single level-2 title naming the kind of the first item, pluralised. Later items are not consulted. |
| Render.BannerNamesKind | fidl2adoc/fidl2adoc.py:274-278 | The banner of a non-empty list whose items are all of one kind is that kind's name, pluralised, as a level-2 title. |
| Render.RenderMember | fidl2adoc/fidl2adoc.py:189-271 | Every member section opens with its two title lines. |
| Render.UsedInPlacement | fidl2adoc/fidl2adoc.py:228-271 | A named type's section is its section over an empty index with the "used in" line inserted after the title, the element, key and value type lines, and the description. Only that line depends on pass 1. |
| Render.SectionIgnoresIndex | fidl2adoc/fidl2adoc.py:189-218 | The sections of attributes, methods and broadcasts are the same whatever pass 1 recorded. |
| Render.NoEntriesNoTable | fidl2adoc/fidl2adoc.py:132-141 | A method without arguments, a broadcast without out-arguments, a struct without fields and an enumeration without enumerators get no table: their section is the title, the description and, for named types, the "used in" line. |
| Render.CalcAddExample | fidl2adoc/fidl2adoc.py:182-196 | The section of `Add(in a: int32, b: int32; out result: int32)` in namespace `Calc`, without comments, written out line by line on literals: the anchor `[[Calc-Add]]`, the title, an input table with rows for `a` and `b`, and an output table with a row for `result`. |
| Render.InterfaceHeader | fidl2adoc/fidl2adoc.py:281-295 | An interface section has an anchor and a title, then a version line exactly when a version is given, then the provenance line naming the interface and its package, then the package description line exactly when that is non-empty. The interface description line comes last, exactly when that is non-empty. |
| Render.TypeCollectionHeader | fidl2adoc/fidl2adoc.py:297-300 | A type collection section opens with exactly two lines: its anchor line and `= Type Collection <package>.<name>`. |
| Render.NamespaceAnchorsAreDistinct | fidl2adoc/fidl2adoc.py:102 | A namespace section is anchored at the namespace name. For `-`-free names, that anchor differs from every member anchor. |
| Pipeline.BuildIndexIsRecord | fidl2adoc/fidl2adoc.py:324-335 | Pass 1 over a run of events records exactly the references of the members visited, in order. |
| Pipeline.IndexIsReferrers | fidl2adoc/fidl2adoc.py:384 | After pass 1, each key lists exactly its registered referrers in traversal order, repeats kept. A key is present exactly when it has one. |
| Pipeline.ReferrersIff | fidl2adoc/fidl2adoc.py:83-86 | A member is listed under a key exactly when some registration pairs them. |
| Pipeline.EventRegistrationsOrigin | fidl2adoc/fidl2adoc.py:303-308 | A registration occurs exactly when some visited member contributes it. |
| Pipeline.RegistrationsOf | fidl2adoc/fidl2adoc.py:148-179 | A member registers a key exactly when one of its sources collapses to it. |
| Pipeline.ListedIffRefers | fidl2adoc/fidl2adoc.py:77-86 | A member is in a type's "used in" list exactly when the traversal visits it and one of its argument, field, attribute, element, key or value types collapses to that type. |
| Pipeline.RenderAllAppend | fidl2adoc/fidl2adoc.py:386 | Pass 2 over two runs of events is the concatenation of their outputs. |
| Pipeline.EventBlock | fidl2adoc/fidl2adoc.py:386-389 | Each handler call's lines form one contiguous block of the document, after the blocks of all earlier calls. |
| Pipeline.ItemEventsRender | fidl2adoc/fidl2adoc.py:306-308 | The item calls of one list render as the sections of its members, one after another. |
| Pipeline.ListEventsRender | fidl2adoc/fidl2adoc.py:303-308 | Pass 2 over `process_item_lists` emits, list after list, the list's banner followed by the sections of its members. |
| Pipeline.InterfaceBanners | fidl2adoc/fidl2adoc.py:274-278 | In an interface each non-empty item list is headed by the banner of its kind (`Attributes`, `Methods`, `Broadcasts`, `Structs`, `Enumerations`, `Arrays`, `Maps`) and an empty list by nothing. A type collection's lists are the last four of these. |
| Pipeline.UsedInLineListsReferrers | fidl2adoc/fidl2adoc.py:89-97 | After pass 1, a named type's "used in" line is non-empty exactly when something refers to it. It is then the header followed by the entries of all referrers in traversal order, so it links every referring member in that order. |
| Pipeline.UsedInLineInDocument | fidl2adoc/fidl2adoc.py:386-389 | The "used in" line of a visited named type appears as a contiguous run of lines in the converted document. It starts after the lines of all earlier handler calls and the section's title, type lines and description. |
| Pipeline.UsedInLineInRun | fidl2adoc/fidl2adoc.py:386-389 | The same for pass 2 over any run of handler calls and any index: a named type's "used in" line sits inside its section's block, after the blocks of all earlier calls. |

## Left out

- Command-line handling, reading the IDL files, parser errors and writing the output file (`main`, fidl2adoc/fidl2adoc.py:355-390) are I/O. The model stops at the list of lines and their newline join (`Pipeline.Document`).
- Building the model from the IDL text (pyfranca's `Processor`, lexer, parser and reference resolution) is not part of this model. The model starts from the resolved packages.
- `get_namespace` (fidl2adoc/fidl2adoc.py:13-17) has no member of its own. It is the `ns` of a resolved reference's target, and `Names.TypeName` and `Ast.DefOf` use it inline.
- Identity: the index keys and the `!=` in the "used in" loop use Python object identity. The model compares by kind, namespace name and member name; packages are not part of the key. Same-named namespaces in different packages are therefore merged: their types share one "used in" list, and their members are treated as equal referrers. Primitive types also share one key per name; those keys are recorded but never read.
- `namespace[name]` (pyfranca's `Namespace.__getitem__`, fidl2adoc/fidl2adoc.py:111) is modelled as "some member or typedef of the namespace has that name" (`Ast.Defines`). pyfranca itself is not part of this model.
- See-also tokens of arguments, fields and enumerators are resolved in the namespace of the enclosing member.
- An enumerator's value is modelled as an optional integer. The `int(str(value))` conversion and its failure on non-integer values are not modelled.
- An interface's version is kept as the text `str(interface.version)` produces.
- Typedefs are not in any item list the traversal visits, so they get no section. They are still collapsible reference targets.
- The rest of fidl2adoc/parse_fidl.py, a standalone legacy script, is not part of this model. Only its `fix_descr_intent` and its enumerator loop are modelled.
- fidl2adoc/test_fidl2adoc.py compares a generated file with a stored one. It is I/O on files and is not modelled.
- Render.RenderMember: its contract states only that each section starts with its title lines. The per-kind content is stated by the contracts of the pieces it concatenates (`Render.Description`, `Render.Table`, the row lemmas `Render.ArgRowsOne`, `Render.ArgRowsAppend`, `Render.FieldRowsOne`, `Render.FieldRowsAppend`, `Render.EnumeratorRowsOne` and `Render.EnumeratorRowsAppend`, `Render.UsedIn`, `Names.TypeName`, `Render.Numbering`) and by `Render.UsedInPlacement`, `Render.SectionIgnoresIndex`, `Render.NoEntriesNoTable` and `Render.CalcAddExample`.

The model follows the code in these respects:

- `adoc_description` splits `@see` comments with `str.split()`, on whitespace only (fidl2adoc/fidl2adoc.py:124). A token with trailing punctuation does not resolve.
- A struct's table lists only the struct's own `fields`, and an enumeration's table only its own `enumerators` (fidl2adoc/fidl2adoc.py:233-234, 253-254). The model's `Struct` and `Enumeration` carry no base type at all. An interface's sections likewise come only from its own item lists; an `extends` base interface is not consulted.
- `prep_method` indexes only the argument types, and `process_method` emits only the title, description and two argument tables (fidl2adoc/fidl2adoc.py:148-151, 189-196). A method's error type is therefore neither indexed nor shown.
- `fix_descr_intent` is not idempotent (`Indent.NotIdempotent`).
- `adoc_description` tests the raw `@see` comment for emptiness before splitting it (fidl2adoc/fidl2adoc.py:123-124). A whitespace-only `@see` comment therefore still emits a "See also:" line with no links (`Render.Description`).
