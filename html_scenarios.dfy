/**
 * Completion on small concrete HTML documents, with trees shaped like the
 * HTML grammar's `element` and `start_tag` rules (written by hand, not parsed).
 */
module HtmlScenarios {
  import opened Wrappers
  import opened LspTypes
  import opened SyntaxTree
  import opened FindNodes
  import opened Components
  import opened Snippets
  import opened Completions

  const ORIGIN: Range := Range(Position(0, 0), Position(0, 0))

  const APP_FOO: Component := Component("app-foo", "file:///src/app/foo.component.ts", ORIGIN, ["value"], ["changed"])

  function FooIndex(): map<string, Component> {
    map["app-foo" := APP_FOO]
  }

  /** `<app-foo fo`: a start tag with an attribute name typed so far. */
  function PartialAttributeTree(): Node {
    var lt := Node("<", false, 0, 1, []);
    var name := Node("tag_name", true, 1, 8, []);
    var attrName := Node("attribute_name", true, 9, 11, []);
    var attr := Node("attribute", true, 9, 11, [attrName]);
    var startTag := Node("start_tag", true, 0, 11, [lt, name, attr]);
    var element := Node("element", true, 0, 11, [startTag]);
    Node("fragment", true, 0, 11, [element])
  }

  /** In `<app-foo fo` at offset 11 the searches find the start tag, no tag name, and an attribute name. */
  lemma PartialAttributeSearches()
    ensures var startTag := PartialAttributeTree().children[0].children[0];
            FindFrom(PartialAttributeTree(), 11, TAG_KINDS) == Some(startTag) &&
            FindFrom(startTag, 11, TAG_NAME).None? &&
            FindFrom(startTag, 11, ATTRIBUTE_NAME).Some?
  {
  }

  /** The first named child of that start tag is its tag name, whose text is `app-foo`. */
  lemma PartialAttributeTagName()
    ensures var startTag := PartialAttributeTree().children[0].children[0];
            FirstNamedChild(startTag) == Some(startTag.children[1]) &&
            Text("<app-foo fo", startTag.children[1]) == "app-foo"
  {
  }

  /** The input binding item of `app-foo`. */
  lemma FooInputItems()
    ensures MakeCompletions(APP_FOO.inputs, INPUT_TEMPLATE) ==
            [CompletionItem("value", Some(Field), Some("[value]=\"$0\""), Some(Snippet))]
  {
    InputSnippet("value");
    assert "[" + "value" + "]=\"$0\"" == "[value]=\"$0\"";
  }

  /** The output binding item of `app-foo`. */
  lemma FooOutputItems()
    ensures MakeCompletions(APP_FOO.outputs, OUTPUT_TEMPLATE) ==
            [CompletionItem("changed", Some(Field), Some("(changed)=\"$0\""), Some(Snippet))]
  {
    OutputSnippet("changed");
    assert "(" + "changed" + ")=\"$0\"" == "(changed)=\"$0\"";
  }

  /** The attribute items of `app-foo`: one input binding and one output binding. */
  lemma FooAttributeItems()
    ensures AttributeItems(APP_FOO) ==
            [CompletionItem("value", Some(Field), Some("[value]=\"$0\""), Some(Snippet)),
             CompletionItem("changed", Some(Field), Some("(changed)=\"$0\""), Some(Snippet))]
  {
    FooInputItems();
    FooOutputItems();
  }

  /** The document `<app-foo fo` and its tree agree, and `["app-foo"]` lists the keys of the index. */
  lemma PartialAttributeWellFormed()
    ensures InDocument(PartialAttributeTree(), 11)
    ensures IsIterationOrder(["app-foo"], FooIndex())
  {
  }

  /** With the cursor after `fo`, the inputs and outputs of `app-foo` are offered. */
  lemma AttributeScenario()
    ensures Completion(PartialAttributeTree(), 11, "<app-foo fo", FooIndex(), ["app-foo"]) ==
            [CompletionItem("value", Some(Field), Some("[value]=\"$0\""), Some(Snippet)),
             CompletionItem("changed", Some(Field), Some("(changed)=\"$0\""), Some(Snippet))]
  {
    var root := PartialAttributeTree();
    var startTag := root.children[0].children[0];
    var nameNode := startTag.children[1];
    PartialAttributeSearches();
    PartialAttributeTagName();
    PartialAttributeWellFormed();
    assert Text("<app-foo fo", nameNode) == "app-foo";
    assert FooIndex()["app-foo"] == APP_FOO;
    CompletionOnAttribute(root, 11, "<app-foo fo", FooIndex(), ["app-foo"], startTag, nameNode);
    FooAttributeItems();
  }

  /** `<app-foo`: a start tag holding only its name. */
  function TagNameTree(): Node {
    var lt := Node("<", false, 0, 1, []);
    var name := Node("tag_name", true, 1, 8, []);
    var startTag := Node("start_tag", true, 0, 8, [lt, name]);
    Node("fragment", true, 0, 8, [Node("element", true, 0, 8, [startTag])])
  }

  /** The end byte counts as inside: a cursor right after the tag name is on it, so every selector is offered. */
  lemma TagNameEndScenario()
    ensures Completion(TagNameTree(), 8, "<app-foo", FooIndex(), ["app-foo"]) ==
            [CompletionItem("app-foo", Some(Keyword), None, None)]
  {
    var root := TagNameTree();
    var startTag := root.children[0].children[0];
    assert FindFrom(root, 8, TAG_KINDS) == Some(startTag);
    assert FindFrom(startTag, 8, TAG_NAME).Some?;
  }

  /** `<app-foo >`: a start tag closed after a space. */
  function TagBodyTree(): Node {
    var lt := Node("<", false, 0, 1, []);
    var name := Node("tag_name", true, 1, 8, []);
    var gt := Node(">", false, 9, 10, []);
    var startTag := Node("start_tag", true, 0, 10, [lt, name, gt]);
    Node("fragment", true, 0, 10, [Node("element", true, 0, 10, [startTag])])
  }

  /** Inside the tag body, on neither the name nor an attribute name, nothing is offered. */
  lemma TagBodyScenario()
    ensures Completion(TagBodyTree(), 9, "<app-foo >", FooIndex(), ["app-foo"]) == []
  {
    var root := TagBodyTree();
    var startTag := root.children[0].children[0];
    assert FindFrom(root, 9, TAG_KINDS) == Some(startTag);
    assert FindFrom(startTag, 9, TAG_NAME).None?;
    assert FindFrom(startTag, 9, ATTRIBUTE_NAME).None?;
  }
}
