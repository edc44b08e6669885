# keyboard.py, modelled in Dafny

`keyboard.py` reads a macOS `.keylayout` document and builds a cross-reference
table of what every key produces under every modifier combination. It works in
five steps:

1. It rewrites `&#xHHHH;` character references as `0xHHHH`, so that the XML
   parser does not choke on them.
2. It collects every key map as a dict from key code to output character.
   Every output is lower-cased and put through `to_chr`, which converts the
   six-character ones, read as hexadecimal code points, and keeps the others.
3. It collects the modifier descriptor of every key map, shortened to glyphs.
4. It finds the "no modifiers" key map, whose descriptor is empty.
5. It emits one row per key whose output is visible: its modifier, its
   character in the ASCII key map (index 0), its character in the "no modifiers"
   key map, the output itself and its Unicode name. Key map 0 comes first.
   After it, the key maps are ordered by how many modifiers they need, then by
   descriptor.

The model keeps the script's data as Dafny values. A Python dict is
`OrderedDict.Dict`: the key order plus a map. Assignment, `dict(items)`,
`list(d.items())` and `{**a, **b}` keep the order exactly as Python does.
The parsed document is `Layout.Keyboard`. Every attribute the script reads
from the key maps and the modifier map is an `Option` there, since a document may lack it: a dead key, for example, is a
`key` element with an `action` and no `output`. Each step is a function, and the
two loops of `build_table` are also methods with loop invariants. Every failure
the model covers becomes a `Layout.Error` inside a `Result`, and when several
of them are possible it is the one Python raises first:

- a failed `assert`;
- an attribute lookup on `None`;
- an `IndexError`;
- a `KeyError`, for a missing attribute of a key map or selector, or a missing key map.

The failures it does not cover are listed under "## Left out": the `ValueError`
of `int()` and of `to_chr`, and the `KeyError` of the title lookup.

Two library calls are parameters of the model rather than definitions:

- `lower: string -> string` stands for `str.lower`. Nothing is assumed about
  it: `to_chr` reads hexadecimal digits of either case.
- `name: char -> Option<string>` stands for `unicodedata.name`, with `None`
  where it raises `ValueError`. Some lemmas assume `Naming.NamesWellFormed`,
  which says names use capital letters, digits, space and hyphen.

Modules, in the order of the source:

| module | models |
|---|---|
| `Wrappers` | `Option`, `Result` |
| `Text` | `str.count`, `str.lower` on ASCII, `str.isspace`/`strip`, string `<`, `';'.join`, `str.split` |
| `OrderedDict` | Python's insertion-ordered `dict` |
| `Hex` | `to_chr` and `int(v, 16)` on six-character literals |
| `Entities` | the entity rewrite of `xml_with_hexnumbers_instead_of_entities` |
| `IgnoreCase` | `re.sub` with a literal pattern and `re.IGNORECASE` |
| `Layout` | the document and `map_by_index` |
| `Modifiers` | `shorten_modifier_descriptions`, `modifier_by_mapindex`, `mapindex_by_modifier` |
| `Naming` | `unicode_name` and the visibility test |
| `Ordering` | `sort_by_asciifirst_and_moddescription_length` |
| `Table` | `build_table` |
| `Counting` | how many rows `build_table` emits |
| `Pipeline` | `main` up to the table |

Where a description of the program and its code disagree, the model follows
the code:

- Outputs are lower-cased before they are stored (keyboard.py:24). A `Shift`
  key map whose key outputs `A` therefore shows `a` in the table, not `A`.
- `Command` is shortened to the same glyph as `Shift` (keyboard.py:32). This is
  kept as written; `Modifiers.CommandSharesShiftGlyph` states it.

Conditions under which `build_table` runs to the end (`Table.TableDefined`):

- Every key map it walks must exist.
- Every visible key must have a column in the ASCII and the baseline key
  maps.
- Key map 0 needs a descriptor of its own only when it has a visible key.
  Without a descriptor, its label would be the ASCII dict itself. That label
  is only stripped inside the visibility test (keyboard.py:90-91), so a key
  map 0 with no visible key runs to the end.

## Model

| member | source | states |
|---|---|---|
| Text.Count | keyboard.py:66 | `s.count(c)` is at most the length of `s`, and zero exactly when `c` does not occur |
| Text.CountConcat | keyboard.py:66 | counting is additive over concatenation |
| Text.AsciiLower | keyboard.py:24 | `str.lower` on ASCII text, the only text it is applied to in the lemmas; `Hex.HexValueLower` states that it keeps the value of hexadecimal digits, and `Entities.EntityRoundTrip` that `to_chr` reads a rewritten reference back after it |
| Text.TextLessIrreflexive | keyboard.py:66 | Python's string `<` is irreflexive |
| Text.TextLessTransitive | keyboard.py:66 | Python's string `<` is transitive |
| Text.TextLessTotal | keyboard.py:66 | any two distinct strings are ordered one way or the other |
| Text.IndexOf | keyboard.py:82 | the result is the first position holding the character |
| Text.Split | keyboard.py:82 | splitting gives one more part than there are separators |
| Text.SplitJoin | keyboard.py:82 | splitting a `;`-join gives the parts back when no part holds `;` |
| Text.CountJoin | keyboard.py:82 | a join of `n` separator-free parts holds exactly `n - 1` separators |
| OrderedDict.Empty | keyboard.py:21 | `{}` is a well-formed dict with no keys |
| OrderedDict.Assign | keyboard.py:23 | `d[k] = v` keeps the dict well-formed and updates exactly key `k` |
| OrderedDict.AssignAll | keyboard.py:23-25 | assigning a run of items appends each new key once, at its first occurrence, after the old keys |
| OrderedDict.AssignAllLookup | keyboard.py:23-25 | after the run, a key is present iff it was present or is assigned; the last item for a key wins; untouched keys keep their values |
| OrderedDict.FromItems | keyboard.py:68 | `dict(items)` holds exactly the items' keys, each with the value of its last item |
| OrderedDict.Items | keyboard.py:61 | `list(d.items())`; `OrderedDict.ItemsRoundTrip` and `OrderedDict.FromItemsRoundTrip` state that it and `dict(items)` invert each other |
| OrderedDict.Merge | keyboard.py:69 | `{**a, **b}` lists `a`'s keys and then `b`'s new ones; `b` wins on shared keys |
| OrderedDict.FromItemsRoundTrip | keyboard.py:61-68 | `list(dict(items).items()) == items` when the keys are distinct |
| OrderedDict.ItemsRoundTrip | keyboard.py:61-68 | `dict(list(d.items())) == d`: the order and the values come back |
| OrderedDict.FromDistinctItems | keyboard.py:68 | with distinct keys, `dict(items)` keeps their order and their values |
| OrderedDict.FreshOfDistinct | keyboard.py:69 | with distinct keys, the keys a merge adds are the unseen ones in order |
| Hex.LiteralValue | keyboard.py:16 | `int(v, 16)` on a six-character literal; `Hex.HexDigitsValue` and `Hex.ToChrRoundTrip` state that it reads back the number the digits were written from |
| Hex.ToChr | keyboard.py:15-16 | `to_chr`; `Hex.ToChrRoundTrip` states that it inverts writing a code point as a six-character literal, and `Entities.EntityRoundTrip` that it gives back the character of a rewritten reference |
| Hex.HexDigitsValue | keyboard.py:16 | reading the digits back gives `n` when it fits in the width |
| Hex.HexValueLower | keyboard.py:16 | lower-casing hexadecimal digits keeps their value |
| Hex.ToChrRoundTrip | keyboard.py:15-16 | `to_chr` inverts writing a code point as `0x` and four digits, or as six digits, in either case |
| Entities.HexNumbersForEntities | keyboard.py:54 | the substitution; `Entities.RewriteIdentity`, `Entities.RewriteLeadingEntity`, `Entities.RewriteUntouchedPrefix` and `Entities.RewriteLength` characterise it |
| Entities.RewriteLength | keyboard.py:54 | the rewrite never lengthens the text, and shortens it whenever a reference occurs |
| Entities.RewriteIdentity | keyboard.py:54 | the text comes back unchanged iff it holds no reference |
| Entities.RewriteLeadingEntity | keyboard.py:54 | a leading `&#xHHHH;` becomes `0xHHHH`, two characters shorter, and the rest is rewritten on its own |
| Entities.RewriteUntouchedPrefix | keyboard.py:54 | text before which no reference starts is copied unchanged |
| Entities.HexDigitsUpper | keyboard.py:54 | upper-case hexadecimal digits are in the pattern's `[\dA-F]` class |
| Entities.EntityRoundTrip | keyboard.py:54 | a reference, once rewritten, lower-cased and put through `to_chr`, gives back its character |
| Entities.LowerCaseEntityKept | keyboard.py:54 | a reference `&#x` + four hexadecimal digits + `;` with at least one lower-case letter among them is not rewritten |
| IgnoreCase.ReplaceAll | keyboard.py:35 | `re.sub` with a literal pattern and `re.IGNORECASE`; `IgnoreCase.NoneLeft`, `IgnoreCase.NoMatchUnchanged`, `IgnoreCase.CountKept` and `IgnoreCase.SpacesToSeparators` characterise it |
| IgnoreCase.StartMatch | keyboard.py:35 | a later substitution cannot create a match at the start of the text where none was |
| IgnoreCase.AfterReplacement | keyboard.py:35 | a match in a replacement followed by text lies in the text, when the replacement shares no folded character with the pattern |
| IgnoreCase.NoneLeft | keyboard.py:35 | after replacing a pattern by text that shares no folded character with it, the pattern occurs nowhere |
| IgnoreCase.StillAbsent | keyboard.py:35 | a substitution whose replacement shares no folded character with `p` does not bring `p` back |
| IgnoreCase.CountKept | keyboard.py:35 | replacing a pattern that never folds to `c` by text without `c` keeps the number of `c` |
| IgnoreCase.SpacesToSeparators | keyboard.py:33-35 | replacing `' '` by `'; '` adds one `;` per space and keeps the spaces |
| IgnoreCase.NoMatchUnchanged | keyboard.py:35 | text where the pattern matches nowhere is copied unchanged |
| Modifiers.ShortenModifierDescription | keyboard.py:31-37 | `shorten_modifier_descriptions`; `Modifiers.ShortenedDescription`, `Modifiers.ShortenUntouched`, `Modifiers.ShiftGlyph` and `Modifiers.CommandSharesShiftGlyph` characterise it |
| Modifiers.NameSubstitutionKeepsSeparators | keyboard.py:32-35 | replacing a modifier name by a glyph keeps the number of `;` and of spaces |
| Modifiers.ShortenedDescription | keyboard.py:31-37 | the shortened descriptor has one `;` more per space of the original, and no modifier name left in any case |
| Modifiers.ShortenUntouched | keyboard.py:31-37 | a descriptor in which none of the five patterns matches is returned as it is |
| Modifiers.CommandSharesShiftGlyph | keyboard.py:32 | `Command`, in any letter case, becomes the glyph `Shift` becomes |
| Modifiers.ShiftGlyph | keyboard.py:32-35 | `Shift`, in any letter case, becomes `⇧` |
| Modifiers.SelectFault | keyboard.py:41 | a selector without `mapIndex` raises a KeyError for it; otherwise one without a `modifier` child fails on `None`; otherwise one whose first `modifier` has no `keys` raises a KeyError for that; a complete selector raises nothing |
| Modifiers.ModifierByMapIndex | keyboard.py:39-42 | no `modifierMap` fails; otherwise the first selector that lacks a part fails with its fault; otherwise each selector's map index maps to its shortened first `keys`, the last selector for an index winning, and the indices come in the order of their first occurrence |
| Modifiers.FirstWithDescriptor | keyboard.py:11 | the first position at or after `i` holding the descriptor, or none when no later position does |
| Modifiers.MapIndexByModifier | keyboard.py:10-11 | the first map index, in dict order, whose descriptor is `target`; none exactly when no descriptor is `target` |
| Layout.FirstFault | keyboard.py:23-24 | the first element a loop raises on: every element before it is sound, and none exists exactly when all are |
| Layout.KeyFault | keyboard.py:24 | a key without `code` raises a KeyError for `code`; otherwise one without `output` raises one for `output`; a complete key raises nothing |
| Layout.KeyMapFault | keyboard.py:23-25 | a key map raises the fault of its first incomplete key; only when its keys are complete, a missing `index` raises a KeyError for `index`; a complete key map raises nothing |
| Layout.CodeMap | keyboard.py:23-25 | each code of a key map maps to `to_chr` of its last key's lower-cased output; the codes come in the order of their first occurrence |
| Layout.MapByIndex | keyboard.py:14-26 | fails when the document has other than one `keyMapSet`; otherwise fails exactly when an attribute is missing, with the fault of the first incomplete key map; otherwise each index maps to the code map of its last key map, the indices in the order of their first occurrence |
| Layout.CodeMapStored | keyboard.py:23-25 | every stored character comes from a key of that key map with that code |
| Layout.StoredCharacter | keyboard.py:14-26 | every character `map_by_index` stores is `to_chr` of the lower-cased output of a key with that code, in a key map with that index |
| Naming.NameOrTofu | keyboard.py:77-81 | one element of `names`; `Naming.TofuMeansNameless` states that it is `U+FFFD` exactly when the character has no name |
| Naming.TofuMeansNameless | keyboard.py:77-81 | with well-formed names, an element of `names` is `U+FFFD` iff `unicodedata.name` raises for the character |
| Naming.Names | keyboard.py:75-81 | the `names` list; `Naming.NamesHaveNoSeparator` and `Naming.UnicodeNameSplits` state that its elements hold no `;` and are read back by splitting the result |
| Naming.NamesHaveNoSeparator | keyboard.py:75-82 | with well-formed names, no element of `names` holds the separator `;` |
| Naming.UnicodeName | keyboard.py:72-82 | an empty output gives `<EMPTY>`; a one-character output gives that character's name or `U+FFFD` |
| Naming.UnicodeNameSplits | keyboard.py:72-82 | splitting the result at `;` gives back one name per character |
| Naming.Visible | keyboard.py:90 | the visibility test; `Naming.VisibleIsTheTest` and `Naming.VisibleIff` characterise it |
| Naming.VisibleIsTheTest | keyboard.py:90 | `Visible` holds iff `unicode_name` gives neither `U+FFFD` nor `<EMPTY>` |
| Naming.VisibleIff | keyboard.py:72-90 | a key is shown iff its output has two or more characters, or is one character with a name |
| Naming.HiddenOutputs | keyboard.py:72-90 | an empty output and a nameless character are not shown |
| Ordering.KeyLess | keyboard.py:66 | the tuple comparison of the sort key; `Ordering.KeyLessIrreflexive`, `Ordering.KeyLessTransitive`, `Ordering.KeyLessTotal` and `Ordering.KeyLessAsymmetric` show that it is a strict total order |
| Ordering.KeyLessIrreflexive | keyboard.py:66 | no descriptor sorts below itself |
| Ordering.KeyLessTransitive | keyboard.py:66 | the sort key `(count(';'), descriptor)` is transitive |
| Ordering.KeyLessTotal | keyboard.py:66 | any two different descriptors are ordered by the sort key |
| Ordering.KeyLessAsymmetric | keyboard.py:66 | the sort key never orders two descriptors both ways |
| Ordering.WithDescriptor | keyboard.py:66 | holds exactly the entries with that descriptor |
| Ordering.Insert | keyboard.py:66 | inserting adds exactly the one entry |
| Ordering.InsertKeepsDescriptors | keyboard.py:66 | inserting puts the entry in front of the others with its descriptor and keeps their order |
| Ordering.InsertKeepsSorted | keyboard.py:66 | inserting into a sorted list keeps it sorted |
| Ordering.SortEntries | keyboard.py:66 | the sort is a permutation, ascends by sort key, and keeps the order of entries with equal keys (stability) |
| Ordering.SortKeepsDistinct | keyboard.py:66 | sorting items whose map indices are distinct keeps them distinct |
| Ordering.UnseenKeepsSortedBy | keyboard.py:69 | dropping the keys a merge does not add keeps the rest in sort order |
| Ordering.SortedItems | keyboard.py:61-66 | the sorted items hold every index of the dict once, each with its descriptor, in sort order; the items with one descriptor keep their dict order |
| Ordering.SortedDict | keyboard.py:68 | the sorted dict has the same keys and descriptors as the original, in sort order |
| Ordering.OrderKeyboards | keyboard.py:60-70 | key map 0 comes first, with its descriptor or none; then every other listed index, each with its descriptor, ascending by modifier count and then by descriptor; indices with one descriptor, such as a Shift and a Command key map, keep their dict order |
| Ordering.KeysWithEntries | keyboard.py:66 | for items paired with their descriptors, filtering the keys by descriptor is filtering the items |
| Ordering.KeysWithUnseen | keyboard.py:69 | filtering by descriptor commutes with leaving out the keys a merge does not add |
| Ordering.SortKeepsTies | keyboard.py:66-69 | after key 0, the indices with one descriptor come in the order the dict lists them |
| Table.DisplayLabel | keyboard.py:91-92 | the modifier column is never blank (blank descriptors show as `<NONE>`); `Table.DisplayLabelCount` adds that it keeps the modifier count |
| Table.DisplayLabelCount | keyboard.py:91-92 | labelling keeps the number of `;` |
| Table.TableOrderReady | keyboard.py:84-88 | when the table is defined, every key map the order lists can be walked |
| Table.Relabel | keyboard.py:91-92 | relabelling a blank modifier again is harmless: the loop's variable always shows the label |
| Table.GroupTable | keyboard.py:88-100 | the inner loop returns the rows of the visible keys of one key map, in key order |
| Table.AppendKey | keyboard.py:89-100 | one pass adds the key's row exactly when it is visible, labelled with its descriptor |
| Table.OrderTable | keyboard.py:86-100 | the outer loop returns the rows of the key maps in the order given |
| Table.AppendGroup | keyboard.py:86-100 | one pass adds the rows of the next key map |
| Table.BuildTable | keyboard.py:84-101 | the method computes the rows of the functional model |
| Table.KeyRows | keyboard.py:88-100 | the rows of the first `n` keys of a key map; `Table.KeyRowsMembers` and `Counting.KeyRowsCount` characterise them |
| Table.TableRows | keyboard.py:86-100 | the rows of the first `n` key maps; `Table.TableRowsMembers` and `Counting.TableRowsCount` characterise them |
| Table.Rows | keyboard.py:84-101 | the rows `build_table` returns; `Table.RowsShowKeys`, `Table.RowsOrdered` and `Counting.RowCount` characterise them |
| Table.KeyRowsMembers | keyboard.py:88-100 | a key map contributes a row for each visible key and no other |
| Table.TableRowsMembers | keyboard.py:86-100 | the rows of the first `n` key maps are exactly the rows of those key maps |
| Table.RowsAreVisibleKeys | keyboard.py:84-101 | the rows are exactly the rows of the visible keys of the listed key maps |
| Table.RowsShowKeys | keyboard.py:84-101 | each row shows a visible key of key map 0 or of a described key map, with its ASCII and baseline characters and its names; and every such key has its row |
| Table.RowsAreLabelled | keyboard.py:90-100 | each row's output is visible, its name is `unicode_name` of it, and its modifier is not blank |
| Table.GroupRowsLevel | keyboard.py:91-96 | each row of a key map shows as many `;` as its descriptor |
| Table.RowsOrdered | keyboard.py:60-101 | the rows of key map 0 come first, and after them the number of `;` in the modifier column never falls |
| Counting.KeyRowsCount | keyboard.py:88-100 | the first `n` keys of a key map give exactly as many rows as they hold visible keys |
| Counting.PairsStep | keyboard.py:86-88 | walking one more key map adds the pairs of it with its visible keys, none counted before |
| Counting.TableRowsCount | keyboard.py:86-100 | the first `n` key maps give exactly as many rows as there are pairs of one of them with a visible key of it |
| Counting.RowCount | keyboard.py:84-101 | the table has exactly one row per pair of key map 0 or a described key map with a key of it whose output is visible |
| Pipeline.Report | keyboard.py:134-140 | the run fails on the first bad part of the document, in the source's order: the `keyMapSet` count, then a missing key map attribute, then the `modifierMap` and its selectors; it succeeds only when both parts are read |
| Pipeline.ActionKeyStops | keyboard.py:24 | a first key with no `output`, as a dead key is written, stops the run with a KeyError for `output` |
| Pipeline.Assemble | keyboard.py:138-140 | the rest of the run once both parts are read; `Pipeline.ReportNeedsKeyMaps` and `Pipeline.ReportIsTable` characterise it |
| Pipeline.ReportAssembles | keyboard.py:134-140 | a stepping stone that unfolds `Pipeline.Report`: once both parts are read, the run is what `Pipeline.Assemble` makes of them |
| Pipeline.ReportNeedsBaseline | keyboard.py:138 | a stepping stone that unfolds `Pipeline.Assemble`: with no empty descriptor, the run stops at the baseline lookup |
| Pipeline.ReportNeedsKeyMaps | keyboard.py:138-140 | a stepping stone that unfolds `Pipeline.Assemble`: when `b` is the index `mapindex_by_modifier` finds for the empty descriptor, a missing key map `b` or key map 0 stops the run; otherwise the run succeeds iff the table can be built |
| Pipeline.ReportIsTable | keyboard.py:136-140 | on success, the rows are the table built from key map 0 as ASCII and the first key map with an empty descriptor as baseline |
| Pipeline.ReportRows | keyboard.py:134-140 | on success, each row shows a visible key with its ASCII and baseline characters, and every visible key of a listed key map has its row |

## Left out

- File I/O is not modelled. That covers reading `keylayout.xml`, `ET.fromstring`, `render`, the title lookup and the HTML output (keyboard.py:51-53, 107-132, 141-142), so the model starts from an already-parsed `Layout.Keyboard`.
- Pipeline.Report: does not model the `KeyError` of `tree.attrib['name']` (keyboard.py:141). `Layout.Keyboard.name` is a plain string, so `Pipeline.Report` succeeds on a document without a `name`, where the script raises after it has built the table.
- The XML parser's treatment of attributes is not modelled, so `int()` of the `index`, `code` and `mapIndex` attributes is taken as already done. A non-numeric attribute would raise `ValueError` there.
- Layout.MapByIndex: requires that every six-character `output` present, once lower-cased, be a `0x`/`0X` literal with four hexadecimal digits, or six hexadecimal digits, naming a Unicode scalar value. The source raises `ValueError` on other six-character outputs. That path is not modelled, so neither is the order between such a `ValueError` and a later missing attribute. Python also accepts spellings such as `+0x1f0` or `0x_1f0`, and it can hold lone surrogates (`chr(0xD800)`), which a Dafny `char` cannot.
- Pipeline.Report: inherits the same requirement from `Layout.MapByIndex`.
- Entities: the `\d` of the pattern is taken as ASCII `0-9`. Python's `re` on `str` also accepts other Unicode decimal digits.
- IgnoreCase.Fold: covers ASCII letters and the four non-ASCII characters that Python's `re.IGNORECASE` matches to ASCII letters (U+0130, U+0131, U+017F, U+212A). That is all that matters for the ASCII patterns used here. Full Unicode case folding is not modelled.
- `str.lower` and `unicodedata.name` are parameters, not definitions. `Text.AsciiLower` is only a helper for the lemmas about hexadecimal digits.
- The kinds of exception raised (`AssertionError`, `AttributeError`, `IndexError`, `KeyError`) are collapsed into `Layout.Error` values. No traceback or message text is modelled, except the count in the `keyMapSet` assertion and the name of a missing attribute, which is the key of the `KeyError`.
- The row dicts of `build_table` are the datatype `Table.Row`. Its fields are in the dict's insertion order, which is what `render` relies on for its column order.
