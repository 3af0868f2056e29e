/** The conversion of one content file (kepub/content.go: process): the tree
    stages in their order, then the string stage on the serialised text. */
module Content {
  import opened Wrappers
  import opened Strings
  import opened Html
  import opened Punctuation
  import Divs
  import Spans
  import SpanProperties
  import Styles
  import Cleaner

  /** U+FFFD, the replacement character left by undecodable input. */
  const Replacement: char := '\U{FFFD}'

  /** The body of the XML declaration, between `<` and `>`. */
  const DeclBody: string := "?xml version=\"1.0\" encoding=\"utf-8\"?"

  /** The XML declaration, and the two commented forms it can take on the way
      through the HTML parser, the serialiser and the punctuation pass. */
  const XmlDecl: string := "<" + DeclBody + ">"
  const SpacedDecl: string := "<!-- " + DeclBody + " -->"
  const BareDecl: string := "<!--" + DeclBody + "-->"

  /** Only the first occurrence of each commented form is turned back into
      the declaration, the spaced form first. */
  function FixDeclaration(h: string): (r: string)
    ensures !Contains(h, SpacedDecl) && !Contains(h, BareDecl) ==> r == h
  {
    ReplaceFirst(ReplaceFirst(h, SpacedDecl, XmlDecl), BareDecl, XmlDecl)
  }

  /** `strings.Replace(h, "\uFFFD", "", -1)`: every U+FFFD goes, and every
      other character keeps its number of occurrences. */
  function DeleteReplacement(h: string): (r: string)
    ensures Replacement !in r
    ensures multiset(r) == multiset(h)[Replacement := 0]
  {
    RemoveAllChar(h, Replacement);
    ReplaceAll(h, [Replacement], "")
  }

  /** What follows serialisation: smartening, deleting every U+FFFD, and
      restoring the declaration. */
  function StringStage(h: string): (r: string)
    ensures Replacement !in r
  {
    var cleaned := DeleteReplacement(SmartenPunctuation(h));
    FixDeclarationKeepsOut(cleaned);
    FixDeclaration(cleaned)
  }

  /** The repair brings in no U+FFFD: the declaration holds none. */
  lemma FixDeclarationKeepsOut(h: string)
    requires Replacement !in h
    ensures Replacement !in FixDeclaration(h)
  {
    DeclBodyFacts();
    assert Replacement !in XmlDecl;
    ReplaceFirstChars(h, SpacedDecl, XmlDecl, Replacement);
    ReplaceFirstChars(ReplaceFirst(h, SpacedDecl, XmlDecl), BareDecl, XmlDecl, Replacement);
  }

  /** The only stage that can fail is the style step, for want of a head;
      parsing and serialisation are outside the model. */
  datatype Error = StyleError(e: Styles.Error)

  /** The tree stages before the clean-up: wrappers, spans, style sheet. */
  function Prepare(d: Document): Result<Document, Error> {
    match Styles.AddKoboStyles(Spans.AddSpans(Divs.AddDivs(d)))
    case Success(styled) => Success(styled)
    case Failure(e) => Failure(StyleError(e))
  }

  /** The tree stages in the order of the source; the result is the tree
      handed to the serialiser. Neither the wrappers nor the spans add or
      remove a head, so the style step, and with it the tree stages, fail
      exactly on a headless document; a tree that comes through has passed
      the clean-up. */
  function TreeStages(d: Document): (r: Result<Document, Error>)
    ensures r.Success? <==> CountTagList(d.roots, "head") > 0
    ensures r.Failure? ==> r.error == StyleError(Styles.CouldNotAppendKoboStyles)
    ensures r.Success? ==>
              && Cleaner.NoneMatchList(Cleaner.AdeptMeta, r.value.roots)
              && Cleaner.NoneMatchList(Cleaner.St1Tag, r.value.roots)
              && Cleaner.PNormalList(r.value.roots) && Cleaner.StylesTypedList(r.value.roots)
  {
    var divided := Divs.AddDivs(d);
    Divs.AddDivsCount(d, "head");
    SpanProperties.AddSpansCount(divided, "head");
    match Prepare(d)
    case Success(styled) => Success(Cleaner.CleanHTML(styled))
    case Failure(e) => Failure(e)
  }

  /** process, with the serialiser `render` as a parameter: it succeeds
      exactly when the document has a head, and its text never holds U+FFFD. */
  function Process(d: Document, render: Document -> string): (r: Result<string, Error>)
    ensures r.Success? <==> CountTagList(d.roots, "head") > 0
    ensures r.Failure? ==> r.error == StyleError(Styles.CouldNotAppendKoboStyles)
    ensures r.Success? ==> Replacement !in r.value
  {
    match TreeStages(d)
    case Success(doc) => Success(StringStage(render(doc)))
    case Failure(e) => Failure(e)
  }

  // ---------------------------------------------------------------------------
  // Properties

  /** Composed over the first three stages: on a document with a head, the
      tree that reaches the clean-up has one more style element and, apart
      from the added divs and spans, exactly the elements of the input. */
  lemma PrepareCounts(d: Document, t: string)
    requires CountTagList(d.roots, "head") > 0
    requires t != "div" && t != "span"
    ensures Prepare(d).Success?
    ensures CountTagList(Prepare(d).value.roots, t)
            == CountTagList(d.roots, t) + (if t == "style" then 1 else 0)
  {
    var divided := Divs.AddDivs(d);
    Divs.AddDivsCount(d, "head");
    SpanProperties.AddSpansCount(divided, "head");
    Divs.AddDivsCount(d, t);
    SpanProperties.AddSpansCount(divided, t);
    Styles.AppendToFirstHeadListSpec(Spans.AddSpans(divided).roots, t);
  }

  /** The tree handed to the serialiser, on a document with a head and no
      element any clean-up rule could match (no meta, `o:p`, heading or
      `st1:` element): it has passed the clean-up, holds one more style
      element, and apart from the added divs and spans holds exactly the
      elements of the input, so every head, paragraph and list survives. */
  lemma RenderedTreeCounts(d: Document, t: string)
    requires CountTagList(d.roots, "head") > 0
    requires Cleaner.NothingToRemove(d.roots)
    requires t != "div" && t != "span"
    ensures TreeStages(d).Success?
    ensures var out := TreeStages(d).value.roots;
            && Cleaner.NoneMatchList(Cleaner.AdeptMeta, out) && Cleaner.NoneMatchList(Cleaner.St1Tag, out)
            && Cleaner.NoneMatchList(Cleaner.BlankOP, out) && Cleaner.NoneMatchList(Cleaner.BlankHeading, out)
            && Cleaner.PNormalList(out) && Cleaner.StylesTypedList(out)
    ensures CountTagList(TreeStages(d).value.roots, t)
            == CountTagList(d.roots, t) + (if t == "style" then 1 else 0)
  {
    PrepareCounts(d, t);
    var prepared := Prepare(d).value;
    forall u | Cleaner.CleanerTag(u) ensures CountTagList(prepared.roots, u) == 0 {
      Cleaner.CleanerTagsAreOthers(u);
      PrepareCounts(d, u);
    }
    Cleaner.NothingMatches(Cleaner.St1Tag, prepared.roots);
    Cleaner.CleanHTMLKeepsAll(prepared, t);
  }

  /** The parser turns `<?xml ...?>` into the bare comment; smartening spaces
      its delimiters, and the first repair turns it back into the declaration. */
  lemma DeclarationRestored()
    ensures SmartenPunctuation(BareDecl) == SpacedDecl
    ensures StringStage(BareDecl) == XmlDecl
  {
    SmartenBareDecl();
    SpacedDeclClean();
    SpacedDeclRepaired();
  }

  lemma SmartenBareDecl()
    ensures SmartenPunctuation(BareDecl) == SpacedDecl
  {
    DeclBodyFacts();
    SmartenComment(DeclBody);
  }

  lemma SpacedDeclClean()
    ensures DeleteReplacement(SpacedDecl) == SpacedDecl
  {
    DeclBodyFacts();
    assert Replacement !in "<!-- " && Replacement !in " -->";
    NotContainsChar(SpacedDecl, [Replacement], 0);
    ReplaceAllNoMatch(SpacedDecl, [Replacement], "");
  }

  /** The spaced form is replaced whole; the bare form, longer than the
      declaration, cannot occur in it. */
  lemma SpacedDeclRepaired()
    ensures FixDeclaration(SpacedDecl) == XmlDecl
  {
    assert FirstOccurrence(SpacedDecl, SpacedDecl, 0) by {
      assert OccursAt(SpacedDecl, SpacedDecl, 0);
    }
    assert SpacedDecl[..0] + XmlDecl + SpacedDecl[|SpacedDecl|..] == XmlDecl;
    assert !Contains(XmlDecl, BareDecl);
  }

  /** What smartening and the deletion need to know about the body: no angle
      bracket, no U+FFFD, no "--", and question marks at both ends. */
  lemma DeclBodyFacts()
    ensures '<' !in DeclBody && '>' !in DeclBody && Replacement !in DeclBody
    ensures |DeclBody| > 0 && DeclBody[0] == '?' && DeclBody[|DeclBody| - 1] == '?'
    ensures !Contains(DeclBody, "--")
  {
    BodyHasNoOpening();
    BodyHasNoClosing();
    BodyHasNoReplacement();
    DeclBodyOneHyphen();
  }

  lemma BodyHasNoOpening()
    ensures '<' !in "?xml version=\"1.0\" encoding=\"utf-8\"?"
  {
  }

  lemma BodyHasNoClosing()
    ensures '>' !in "?xml version=\"1.0\" encoding=\"utf-8\"?"
  {
  }

  lemma BodyHasNoReplacement()
    ensures '\U{FFFD}' !in "?xml version=\"1.0\" encoding=\"utf-8\"?"
  {
  }

  /** The only hyphen of the body is the one in "utf-8". */
  lemma DeclBodyOneHyphen()
    ensures !Contains(DeclBody, "--")
  {
    var front := "?xml version=\"1.0\" encoding=\"utf";
    var back := "8\"?";
    HyphenFreeHalves();
    assert DeclBody == front + "-" + back;
    NoLongerRun(front, "-", back, "--", '-');
  }

  lemma HyphenFreeHalves()
    ensures '-' !in "?xml version=\"1.0\" encoding=\"utf" && '-' !in "8\"?"
  {
  }

  /** Text with no hyphen, no damaged comment delimiter and no U+FFFD passes
      the string stage unchanged. */
  lemma StringStagePlainText(h: string)
    requires '-' !in h && Replacement !in h
    requires !Contains(h, BrokenOpen) && !Contains(h, BrokenClose)
    ensures StringStage(h) == h
  {
    NotContainsChar(h, [Replacement], 0);
    ReplaceAllNoMatch(h, [Replacement], "");
    FixDeclarationWithoutHyphen(h);
  }

  /** Both commented forms contain a hyphen, so text without one is left alone. */
  lemma FixDeclarationWithoutHyphen(h: string)
    requires '-' !in h
    ensures FixDeclaration(h) == h
  {
    NotContainsChar(h, SpacedDecl, 2);
    NotContainsChar(h, BareDecl, 2);
  }
}
