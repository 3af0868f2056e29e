# kepubify content conversion, modelled in Dafny

kepubify turns an ordinary EPUB into a Kobo EPUB. This project models the
rewrite of one book's files in `kepub/content.go`:

- **The package document.** `processOPF` marks the cover item with
  `properties="cover-image"`. It also drops calibre's timestamp `meta` and
  the `bkp` contributor.
- **Each content file.** `process` takes the parsed HTML tree through these
  steps, in this order:
  - `addDivs` adds the `book-columns` / `book-inner` wrappers;
  - `addSpans` cuts every text node under `<body>` into sentence spans
    (`createSpan`, `addSpansToNode`);
  - `addKoboStyles` appends the Kobo style sheet;
  - `cleanHTML` applies the clean-up rules.

  The tree is then serialised. `smartenPunctuation` replaces hyphen runs with
  dash entities and repairs the comment delimiters this damages. Every U+FFFD
  is deleted. Finally the XML declaration, which the HTML parser turned into
  a comment, is restored.

Trees are immutable values (`Html.Node`, and `Opf.XNode` for the
namespace-aware etree model). In-place mutations become functions that
return the new tree. The span walk in the source iterates over a snapshot of
each node's children. The model therefore makes it a fold over the
children. The fold threads the (paragraph, segment) counter pair and records
the label of every span it creates.

The sentence regular expression `((?ms).*?[\.\!\?\:]['"”’“…]?\s*)` is
replaced by a scanner with the same leftmost-first reading:
- the lazy `.*?` stops at the first terminator;
- the optional closer is taken when present;
- `\s*` takes the longest run of `[\t\n\f\r ]`.

The gap filling around the matches is modelled exactly as written.

Two properties one might expect of this code do not hold, and the model
proves that they fail:
- **The clean-up is not idempotent.**
  - Blank headings are removed before `st1:` tags.
  - A heading whose only content is an `st1:` element therefore survives the
    first run, empty, and goes on the second run (`Cleaner.CleanHTMLNotIdempotent`).
- **Smartening does not leave comments as they were.** The comment repair
  writes `<!-- ` and ` -->`, with a space.
  - A comment that did not start with a space therefore gains one. This is
    also how the declaration round-trip works: the parser yields
    `<!--?xml …?-->`, and smartening turns it into the spaced form that the
    first repair at line 271 matches (`Content.DeclarationRestored`).
  - An empty comment `<!---->` is not repaired. It comes out as
    `<! &#x2013; ->` (`Punctuation.EmptyCommentNotRepaired`).

## Model

| member | source | states |
|---|---|---|
| Strings.ReplaceAllNoMatch | kepub/content.go:191-198 | `strings.Replace(…, -1)` leaves a text that does not contain the pattern unchanged |
| Strings.ReplaceAllAtFirst | kepub/content.go:191-192 | replace-all keeps the text before the first occurrence, substitutes that occurrence, and goes on only in the text after it (left-to-right, non-overlapping) |
| Strings.ReplaceFirst | kepub/content.go:271-272 | `strings.Replace(…, 1)`: a text without the pattern is unchanged; otherwise exactly the first occurrence is substituted and both sides are kept |
| Strings.RemoveAllChar | kepub/content.go:268 | deleting a character removes every occurrence and keeps the count of every other character |
| Strings.TrimEmptyIffAllSpace | kepub/content.go:130 | `TrimSpace(s) == ""` exactly when every character of s is white space |
| Strings.BlankIffInvisible | kepub/content.go:208-227 | `Trim(s, "\t \n") == ""` exactly when removing tabs, spaces and newlines leaves nothing |
| Strings.ParseNatToString | kepub/content.go:83 | the decimal rendering of a counter reads back as the same number |
| Strings.NatToStringInjective | kepub/content.go:83 | distinct counter values render as distinct decimal strings |
| Sentences.NextTerminator | kepub/content.go:99 | finds the first sentence terminator at or after a position, or reports that there is none |
| Sentences.SkipSpaces | kepub/content.go:99 | `\s*` takes a maximal run of RE2 white space |
| Sentences.MatchesFrom | kepub/content.go:99-113 | the successive matches chain from the start; no terminator follows the last one |
| Sentences.FillGaps | kepub/content.go:114-127 | the matches and the gaps between them, concatenated, give back the text; no piece is empty |
| Sentences.FragmentsPartition | kepub/content.go:113-127 | the fragments of a text node partition its text into non-empty pieces, so no text is lost |
| Sentences.FragmentTerminators | kepub/content.go:99-127 | every fragment but the last holds exactly one terminator; the last holds at most one |
| Punctuation.Dashes | kepub/content.go:191-192 | after the dash pass no "--" remains anywhere in the text |
| Punctuation.DashesWithoutHyphens | kepub/content.go:191-192 | text without a hyphen passes the dash pass unchanged |
| Punctuation.EnDashFirst | kepub/content.go:191 | a lone run of three hyphens becomes the spaced en-dash entity |
| Punctuation.EmDashAfter | kepub/content.go:192 | a lone run of two hyphens becomes the spaced em-dash entity |
| Punctuation.FourHyphens | kepub/content.go:191-192 | four hyphens become an en dash followed by a stray hyphen, because the en-dash pass runs first |
| Punctuation.CommentNoTriple | kepub/content.go:191 | a comment whose body has no "--" and does not start or end with '-' holds no "---", so the en-dash pass leaves it alone |
| Punctuation.DamagedDelimiters | kepub/content.go:191-198 | the dash pass turns `<!--` and `-->` into exactly the two strings the comment fix looks for |
| Punctuation.FixComments | kepub/content.go:197-198 | text without a damaged delimiter is unchanged by the comment fix |
| Punctuation.RepairComment | kepub/content.go:197-198 | a damaged comment is repaired to `<!-- body -->`, with spaces |
| Punctuation.SmartenPunctuation | kepub/content.go:189-200 | text without a hyphen or a damaged delimiter passes the punctuation stage unchanged |
| Punctuation.SmartenComment | kepub/content.go:189-200 | a comment `<!--b-->` with a plain body comes out as `<!-- b -->` |
| Punctuation.EmptyCommentNotRepaired | kepub/content.go:189-200 | the empty comment `<!---->` comes out as `<! &#x2013; ->` and is not repaired |
| Spans.ParseSpanIdRoundTrip | kepub/content.go:83 | the id `kobo.P.S` reads back as the pair (P, S) |
| Spans.SpanIdInjective | kepub/content.go:83 | distinct (paragraph, segment) labels give distinct ids |
| Spans.CreateSpanIsMarker | kepub/content.go:71-95 | a created span is a koboSpan marker; its id names its label and its only child is the given text |
| Spans.EmitSpansShape | kepub/content.go:129-134 | the spans of one text node carry consecutive segment numbers and hold the non-blank fragments in order |
| Spans.EmitSpans | kepub/content.go:129-134 | one span per non-blank fragment, and the segment counter ends advanced by their number; `Spans.EmitSpansShape` states the labels and contents |
| Spans.AddSpans | kepub/content.go:159-167 | a document that already holds a koboSpan is returned untouched |
| Spans.WalkNode | kepub/content.go:98-155 | the counters never move backwards; a non-text node is replaced by exactly one node, and an element keeps its tag and attributes (only text nodes are cut into spans) |
| Spans.WalkList | kepub/content.go:100-154 | the loop over the children never moves the counters backwards; `SpanProperties.WalkNodeOrdered` states the ordering of the labels |
| SpanProperties.TextNodeSpans | kepub/content.go:106-136 | a text node outside `pre` is replaced by one span per non-blank fragment, labelled from segment+1 onwards; the segment counter ends one past the last label |
| SpanProperties.BlankTextVanishes | kepub/content.go:111-136 | a blank text node is removed and advances the segment counter by one |
| SpanProperties.WalkNodeOrdered | kepub/content.go:98-155 | the labels created under a node strictly increase in document order; they lie between the counters before and after the node |
| SpanProperties.SpanIdsUnique | kepub/content.go:156-177 | on an unprocessed document, the span ids of the result name the walk's labels in order, the labels increase, and no id occurs twice |
| SpanProperties.WalkNodeKeepsText | kepub/content.go:113-136 | span insertion changes no non-space character of a node's text, nor their order |
| SpanProperties.InertIsTransparent | kepub/content.go:106-146 | a `pre` text, an `img` or a non-element child stays in place and has no effect on the spans or counters of its siblings |
| SpanProperties.AddSpansOnlyInBody | kepub/content.go:172-174 | everything outside the body elements is left as it was |
| SpanProperties.AddSpansIdempotent | kepub/content.go:158-167 | adding spans a second time changes nothing |
| SpanProperties.AddSpansCount | kepub/content.go:98-177 | span insertion adds or removes no element other than spans |
| Divs.WrapAllShape | kepub/content.go:64-65 | wrapping leaves one element, the wrapper, holding every element child in order; non-element children keep their order; without elements nothing changes |
| Divs.WrapAll | kepub/content.go:64-65 | a parent without element children is left alone, and wrapping never adds siblings; `Divs.WrapAllShape` states where every node goes |
| Divs.WrapBodyShape | kepub/content.go:64-65 | the body's elements end up inside `div.book-columns > div.book-inner`; its other nodes keep their order |
| Divs.AddDivs | kepub/content.go:57-68 | when there are more divs than paragraphs the document is unchanged; otherwise every outermost body has its elements, in order, inside `div.book-columns > div.book-inner` and keeps its other nodes; nothing outside the bodies changes |
| Divs.WrapBodiesOnlyInBody | kepub/content.go:64-65 | wrapping changes nothing outside the body elements |
| Divs.WrapBodiesListWrapped | kepub/content.go:64-65 | every outermost body of the result holds its original elements inside the two wrappers, and every node outside the bodies keeps its kind, tag and attributes |
| Divs.AddDivsCount | kepub/content.go:57-68 | adding the wrappers adds or removes no element other than divs |
| Divs.AddDivsDocument | kepub/content.go:64-65 | on `<html><head/><body>…</body></html>` the head is untouched and the body holds the two wrappers around all its elements |
| Styles.AddKoboStyles | kepub/content.go:180-186 | the style step succeeds exactly when the document has a head, and then adds exactly one style element |
| Styles.AddKoboStylesFirstHead | kepub/content.go:181 | the style sheet is appended as the last child of the first head |
| Styles.AddKoboStylesKeepsHeads | kepub/content.go:180-186 | the head count is unchanged, so the step succeeds again on its own output |
| Cleaner.RemoveSound | kepub/content.go:205-220 | after a removal rule no element matching it remains |
| Cleaner.RemoveIdentity | kepub/content.go:205-220 | a rule with nothing to remove changes nothing |
| Cleaner.RemoveIdempotent | kepub/content.go:205-220 | applying a removal rule twice is the same as applying it once |
| Cleaner.RemovePreserves | kepub/content.go:205-220 | a later rule cannot bring back what an earlier rule removed, unless the later rule is a structural one and the earlier a blank-text one |
| Cleaner.RemoveKeepsOthers | kepub/content.go:205-220 | a removal takes away exactly the matching elements and their subtrees: every element outside them stays, and none is added |
| Cleaner.RemoveKeepsVisible | kepub/content.go:208-215 | removing blank elements changes no non-blank character of the text |
| Cleaner.RemoveList | kepub/content.go:205-220 | the contract is only a length bound: the siblings left are no more than before; `Cleaner.RemoveSound` and `Cleaner.RemoveKeepsOthers` state what goes and what stays |
| Cleaner.Prune | kepub/content.go:205-220 | a kept element keeps its tag and attributes and loses only children; a non-element is untouched |
| Cleaner.NormalizeP | kepub/content.go:223-227 | every node keeps its kind, tag and attributes, and a blank childless paragraph ends up with no children |
| Cleaner.NormalizePListShape | kepub/content.go:223-227 | opening self-closed paragraphs keeps every node's kind, whether any element is present, and the non-blank text |
| Cleaner.SetStyleTypeListShape | kepub/content.go:230 | setting the style type keeps every node's kind and all the text |
| Cleaner.SetStyleType | kepub/content.go:230 | a style element gets type text/css, with the type overwritten rather than duplicated and every other attribute kept; other nodes keep their tag and attributes |
| Html.GetAttr | kepub/content.go:161 | `Attr` finds a value exactly when some attribute has the name, and then gives the value of the first such attribute |
| Html.SetAttr | kepub/content.go:230 | afterwards the attribute has the new value; an existing attribute is overwritten and not duplicated, one is added only when missing, and no other attribute changes |
| Cleaner.CleanHTML | kepub/content.go:203-233 | no DRM meta and no `st1:` tag remain; blank `o:p` elements and headings are gone when the input had no `st1:` tag; every blank childless paragraph is empty; every style has type text/css |
| Cleaner.CleanHTMLKeepsAll | kepub/content.go:203-233 | on a document holding no meta, `o:p`, heading or `st1:` element, the clean-up keeps every element |
| Cleaner.CleanHTMLNotIdempotent | kepub/content.go:213-220 | `<h1><st1:x>T</st1:x></h1>` is cleaned to an empty `h1`, which a second run removes |
| Opf.SelectAttrValue | kepub/content.go:25 | gives the default when the attribute is absent, and otherwise the value of the first attribute with that name |
| Opf.CoverId | kepub/content.go:25-28 | the cover id looked up is never empty |
| Opf.CreateAttr | kepub/content.go:30 | afterwards the unprefixed attribute has the new value, every other attribute is unchanged, and one is added only when it was missing |
| Opf.CreateAttrKeepsOthers | kepub/content.go:30 | the path filter on any other attribute name gives the same answer before and after |
| Opf.CreateAttrIdempotent | kepub/content.go:30 | setting the same attribute twice is the same as setting it once |
| Opf.MarkCoversIsMarkAny | kepub/content.go:24-32 | the loop over the cover metas equals one pass that marks every item whose id is any of the cover ids |
| Opf.MarkCovers | kepub/content.go:24-32 | the contract is only that the number of top-level nodes is kept; `Opf.MarkCoversIsMarkAny` and `Opf.MarkAnySound` state what is marked |
| Opf.MarkAnySound | kepub/content.go:29-31 | after marking, every element whose id is a cover id carries properties="cover-image" |
| Opf.XRemoveSound | kepub/content.go:35-42 | after a removal no match remains; it creates no match of another rule and unmarks no cover item |
| Opf.XRemoveListKeepsOthers | kepub/content.go:35-42 | when every match is a leaf element, as the metadata entries are, the removal keeps the number of non-matching elements |
| Opf.XRemoveList | kepub/content.go:35-42 | the contract is only a length bound: the siblings left are no more than before; `Opf.XRemoveSound` and `Opf.XRemoveListKeepsOthers` state what goes and what stays |
| Opf.MarkAnyKeepsOthers | kepub/content.go:29-31 | the cover mark writes only `properties`, so it drops no element from the count of those neither removal matches, and the removals' matches stay leaves |
| Opf.XRemoveListKeepsOtherCount | kepub/content.go:35-42 | when the matches are leaves, either removal keeps every element that neither removal matches |
| Opf.XRemoveListKeepsLeaves | kepub/content.go:35-42 | one removal keeps the other rule's matches leaf elements |
| Opf.RemovalsKeepOthers | kepub/content.go:24-42 | marking the cover and then both removals keep every element that matches neither removal, when the matches are leaves |
| Opf.ProcessOpf | kepub/content.go:15-54 | the result holds no calibre timestamp and no bkp contributor, and every item named by a cover meta of the input is marked as the cover image; when the dropped entries are leaf elements, every element that matches neither removal survives |
| Content.DeleteReplacement | kepub/content.go:267-268 | no U+FFFD remains, and every other character keeps its count |
| Content.StringStage | kepub/content.go:263-272 | the text after smartening, deletion and the declaration fix holds no U+FFFD |
| Content.StringStagePlainText | kepub/content.go:263-272 | text with no hyphen, no U+FFFD and no damaged delimiter passes the string stage unchanged |
| Content.FixDeclaration | kepub/content.go:271-272 | text holding neither commented form of the declaration is unchanged |
| Content.FixDeclarationKeepsOut | kepub/content.go:271-272 | restoring the declaration brings in no U+FFFD |
| Content.FixDeclarationWithoutHyphen | kepub/content.go:271-272 | text without a hyphen holds neither commented declaration and is left alone |
| Content.SpacedDeclRepaired | kepub/content.go:271-272 | the spaced commented declaration becomes `<?xml version="1.0" encoding="utf-8"?>` |
| Content.DeclarationRestored | kepub/content.go:263-272 | the parser's bare commented declaration is spaced by smartening and comes out of the string stage as the XML declaration |
| Content.TreeStages | kepub/content.go:242-256 | the tree stages fail exactly when the document has no head, and then only with the style error; a tree that comes through holds no DRM meta and no `st1:` tag, every blank childless paragraph is empty and every style has type text/css |
| Content.PrepareCounts | kepub/content.go:242-253 | on a document with a head, the wrapper, span and style stages succeed; the tree they produce has one more style element and otherwise the same number of every element except divs and spans |
| Content.RenderedTreeCounts | kepub/content.go:242-258 | on a document with a head and nothing any clean-up rule could match, the tree handed to the serialiser has passed the clean-up and keeps every head, paragraph, list and every other element of the input, plus one style element |
| Content.Process | kepub/content.go:236-275 | the conversion succeeds exactly when the document has a head, fails only with "could not append kobo styles", and its output holds no U+FFFD |

## Left out

- Parsing and serialisation are not modelled. `goquery.NewDocumentFromReader` and `doc.Html` are third-party code. The model starts from the parsed tree, and the serialiser is the parameter `render` of `Content.Process`. Their error returns (lines 237-240 and 258-261) are therefore not modelled.
- processOPF's I/O is not modelled. `ReadFromString`, `Indent(4)` and `WriteToString` are etree's text I/O and whitespace layout, and their errors go with them. `Opf.ProcessOpf` works on the element tree.
- The selector engines are not modelled. The CSS selectors of goquery and the path language of etree are replaced by one predicate per selector the code uses.
- `WrapAllHtml`, `AppendHtml` and `SetHtml` parse markup strings. The model builds the resulting nodes directly.
- A cover id containing a quote cannot be spliced into the path `//[@id='…']` at line 29. The model compares ids as values, and what etree does with such a path is not modelled.
- Go strings are UTF-8 byte sequences, and regex indices are byte offsets. The model works on characters, which gives the same fragments for valid UTF-8. Invalid byte sequences are not modelled.
- The counters are Go `int`. The model uses unbounded naturals, and overflow would need more than 2^63 spans.
- Nested and multiple `body` elements are handled one way only. The model walks each outermost body and wraps each body's children separately. goquery would also visit nested bodies, and would gather the `body>*` of several bodies into one wrapper. An HTML5 parser produces at most one body; a frameset document has none.
- Cleaner.CleanHTML: the absence of blank `o:p` elements and headings is promised only for input without `st1:` tags. Removing an `st1:` element after the heading rule can leave a blank heading behind, as `Cleaner.CleanHTMLNotIdempotent` shows.
- Styles.AddKoboStyles: the goquery result length check at line 182 is modelled as "a head exists". An append to a non-empty selection always returns a selection of length one.
- calibre/__init__.py is not part of this model.
- Content.RenderedTreeCounts: it is stated only for documents with nothing a clean-up rule could match. Otherwise each removal also takes the elements inside its matches, as `Cleaner.RemoveKeepsOthers` counts exactly.
