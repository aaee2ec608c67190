/**
 * The field-binding loop both `Book` classes run over the children of the
 * `<metadata>` element: every child whose tag contains `title`, `creator`,
 * `language` or `identifier` is assigned to the matching field, so the last
 * such child is the one that stays bound. A field no child matches stays
 * unbound.
 */
module Fields {
  import opened Common
  import opened Strings
  import opened Xml

  /** Positions of the bound children of `_title`, `_creator`, `_language`, `_identifier`. */
  datatype Bindings = Bindings(title: Option<nat>, creator: Option<nat>, language: Option<nat>, identifier: Option<nat>)

  /** The bindings the loop leaves: the last child matching each word. */
  function BoundFields(md: seq<Element>): Bindings {
    Bindings(
      Last(md, TagContains("title")),
      Last(md, TagContains("creator")),
      Last(md, TagContains("language")),
      Last(md, TagContains("identifier")))
  }

  /** One more loop step: a match at position `i` replaces the binding. */
  lemma LastStep(md: seq<Element>, i: nat, sel: Selector)
    requires i < |md|
    ensures Last(md[..i + 1], sel) == if Matches(sel, md[i]) then Some(i) else Last(md[..i], sel)
  {
    assert md[..i + 1][..i] == md[..i];
  }

  /** The `for el in self._metadata` loop with its four overwriting `if`s. */
  method BindFields(md: seq<Element>) returns (b: Bindings)
    ensures b == BoundFields(md)
  {
    var title, creator, language, identifier: Option<nat> := None, None, None, None;
    for i := 0 to |md|
      invariant title == Last(md[..i], TagContains("title"))
      invariant creator == Last(md[..i], TagContains("creator"))
      invariant language == Last(md[..i], TagContains("language"))
      invariant identifier == Last(md[..i], TagContains("identifier"))
    {
      LastStep(md, i, TagContains("title"));
      LastStep(md, i, TagContains("creator"));
      LastStep(md, i, TagContains("language"));
      LastStep(md, i, TagContains("identifier"));
      if Contains(md[i].tag, "title") {
        title := Some(i);
      }
      if Contains(md[i].tag, "creator") {
        creator := Some(i);
      }
      if Contains(md[i].tag, "language") {
        language := Some(i);
      }
      if Contains(md[i].tag, "identifier") {
        identifier := Some(i);
      }
    }
    assert md[..|md|] == md;
    b := Bindings(title, creator, language, identifier);
  }

  /** Changing texts does not move any binding. */
  lemma BindingsIgnoreText(a: seq<Element>, b: seq<Element>)
    requires SameShape(a, b)
    ensures BoundFields(a) == BoundFields(b)
  {
    ScansIgnoreText(a, b, TagContains("title"));
    ScansIgnoreText(a, b, TagContains("creator"));
    ScansIgnoreText(a, b, TagContains("language"));
    ScansIgnoreText(a, b, TagContains("identifier"));
  }
}
