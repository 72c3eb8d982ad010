/**
 * `completion`: the items offered at a byte offset of an HTML document, from
 * the syntax tree, the document text and the component index.
 */
module Completions {
  import opened Wrappers
  import opened LspTypes
  import opened SyntaxTree
  import opened FindNodes
  import opened Snippets
  import opened Components

  /** The order in which the index's hash map yields its entries: every key exactly once. */
  predicate IsIterationOrder(order: seq<string>, index: map<string, Component>) {
    (forall i, j :: 0 <= i < j < |order| ==> order[i] != order[j]) &&
    (forall k :: k in order ==> k in index) &&
    (forall k :: k in index ==> k in order)
  }

  /** One snippet item of `make_completions`. */
  function SnippetItem(element: string, template: string): (r: CompletionItem)
    ensures r.labelText == element && r.kind == Some(Field) && r.insertTextFormat == Some(Snippet)
    ensures template == INPUT_TEMPLATE ==> r.insertText == Some("[" + element + "]=\"$0\"")
    ensures template == OUTPUT_TEMPLATE ==> r.insertText == Some("(" + element + ")=\"$0\"")
  {
    InputSnippet(element);
    OutputSnippet(element);
    CompletionItem(element, Some(Field), Some(ReplaceHoles(template, element)), Some(Snippet))
  }

  /** `make_completions`: one FIELD snippet item per element, in order. */
  function MakeCompletions(elements: seq<string>, template: string): (r: seq<CompletionItem>)
    ensures |r| == |elements|
    ensures forall i :: 0 <= i < |elements| ==> r[i] == SnippetItem(elements[i], template)
  {
    if elements == [] then []
    else [SnippetItem(elements[0], template)] + MakeCompletions(elements[1..], template)
  }

  /** One KEYWORD item per entry, labelled with the entry's selector, in iteration order. */
  function KeywordItems(index: map<string, Component>, order: seq<string>): (r: seq<CompletionItem>)
    requires forall k :: k in order ==> k in index
    ensures |r| == |order|
    ensures forall i :: 0 <= i < |order| ==> r[i] == CompletionItem(index[order[i]].selector, Some(Keyword), None, None)
  {
    if order == [] then []
    else [CompletionItem(index[order[0]].selector, Some(Keyword), None, None)] + KeywordItems(index, order[1..])
  }

  /** The items for a tag naming component `c`: its inputs, then its outputs. */
  function AttributeItems(c: Component): seq<CompletionItem> {
    MakeCompletions(c.inputs, INPUT_TEMPLATE) + MakeCompletions(c.outputs, OUTPUT_TEMPLATE)
  }

  function Completion(root: Node, offset: nat, doc: string, index: map<string, Component>, order: seq<string>): (r: seq<CompletionItem>)
    requires InDocument(root, |doc|)
    requires IsIterationOrder(order, index)
    ensures FindFrom(root, offset, TAG_KINDS).None? ==> r == []
    ensures forall tag :: FindFrom(root, offset, TAG_KINDS) == Some(tag) && FindFrom(tag, offset, TAG_NAME).None? ==>
              (FindFrom(tag, offset, ATTRIBUTE_NAME).None? ==> r == []) &&
              (FirstNamedChild(tag).None? ==> r == [])
  {
    match FindFrom(root, offset, TAG_KINDS)
    case None => []
    case Some(tag) =>
      if FindFrom(tag, offset, TAG_NAME).Some? then KeywordItems(index, order)
      else if FindFrom(tag, offset, ATTRIBUTE_NAME).None? then []
      else match FirstNamedChild(tag)
        case None => []
        case Some(nameNode) =>
          FindFromInSubtree(root, offset, TAG_KINDS);
          InDocumentSubtree(tag, root, |doc|);
          var name := Text(doc, nameNode);
          if name in index then AttributeItems(index[name]) else []
  }

  /** A tag whose first named child's text names no component gets no items. */
  lemma CompletionUnknownTag(root: Node, offset: nat, doc: string, index: map<string, Component>, order: seq<string>, tag: Node, nameNode: Node)
    requires InDocument(root, |doc|) && IsIterationOrder(order, index)
    requires FindFrom(root, offset, TAG_KINDS) == Some(tag) && FindFrom(tag, offset, TAG_NAME).None?
    requires FirstNamedChild(tag) == Some(nameNode) && nameNode.start <= nameNode.end <= |doc|
    requires Text(doc, nameNode) !in index
    ensures Completion(root, offset, doc, index, order) == []
  {
  }

  lemma {:induction false} DistinctCardinality(order: seq<string>)
    requires forall i, j :: 0 <= i < j < |order| ==> order[i] != order[j]
    ensures |set k | k in order| == |order|
    decreases |order|
  {
    if order != [] {
      var init := order[..|order| - 1];
      DistinctCardinality(init);
      assert (set k | k in order) == (set k | k in init) + {order[|order| - 1]};
    }
  }

  /** There are as many keyword items as index entries. */
  lemma KeywordItemsCount(index: map<string, Component>, order: seq<string>)
    requires IsIterationOrder(order, index)
    ensures |KeywordItems(index, order)| == |index|
  {
    DistinctCardinality(order);
    assert (set k | k in order) == index.Keys;
  }

  /** In an index keyed by selector, item `i` is labelled with the `i`-th key, so no label repeats. */
  lemma KeywordItemsLabels(index: map<string, Component>, order: seq<string>)
    requires IsIterationOrder(order, index) && KeyedBySelector(index)
    ensures forall i :: 0 <= i < |order| ==> KeywordItems(index, order)[i].labelText == order[i]
    ensures forall i, j :: 0 <= i < j < |order| ==> KeywordItems(index, order)[i].labelText != KeywordItems(index, order)[j].labelText
  {
  }

  /** A label occurs among the keyword items iff it is a key. */
  lemma KeywordItemsCover(index: map<string, Component>, order: seq<string>)
    requires IsIterationOrder(order, index) && KeyedBySelector(index)
    ensures forall i :: 0 <= i < |order| ==> KeywordItems(index, order)[i].labelText in index
    ensures forall k :: k in index ==> exists i :: 0 <= i < |order| && KeywordItems(index, order)[i].labelText == k
  {
    var r := KeywordItems(index, order);
    forall k | k in index
      ensures exists i :: 0 <= i < |order| && r[i].labelText == k
    {
      var i :| 0 <= i < |order| && order[i] == k;
      assert r[i].labelText == k;
    }
  }

  /** On a tag name: exactly one KEYWORD item per index entry, labelled with its selector. */
  lemma CompletionOnTagName(root: Node, offset: nat, doc: string, index: map<string, Component>, order: seq<string>, tag: Node)
    requires InDocument(root, |doc|) && IsIterationOrder(order, index) && KeyedBySelector(index)
    requires FindFrom(root, offset, TAG_KINDS) == Some(tag) && FindFrom(tag, offset, TAG_NAME).Some?
    ensures |Completion(root, offset, doc, index, order)| == |index|
    ensures forall i :: 0 <= i < |order| ==> Completion(root, offset, doc, index, order)[i].kind == Some(Keyword)
    ensures forall i :: 0 <= i < |order| ==> Completion(root, offset, doc, index, order)[i].insertText.None?
    ensures forall i :: 0 <= i < |order| ==> Completion(root, offset, doc, index, order)[i].labelText in index
    ensures forall k :: k in index ==> exists i :: 0 <= i < |order| && Completion(root, offset, doc, index, order)[i].labelText == k
    ensures forall i, j :: 0 <= i < j < |order| ==>
              Completion(root, offset, doc, index, order)[i].labelText != Completion(root, offset, doc, index, order)[j].labelText
  {
    assert Completion(root, offset, doc, index, order) == KeywordItems(index, order);
    KeywordItemsCount(index, order);
    KeywordItemsLabels(index, order);
    KeywordItemsCover(index, order);
  }

  /** The inputs as `[x]="$0"`, then the outputs as `(x)="$0"`, all FIELD snippets. */
  lemma AttributeItemsShape(c: Component)
    ensures |AttributeItems(c)| == |c.inputs| + |c.outputs|
    ensures forall i :: 0 <= i < |c.inputs| ==>
              AttributeItems(c)[i] == CompletionItem(c.inputs[i], Some(Field), Some("[" + c.inputs[i] + "]=\"$0\""), Some(Snippet))
    ensures forall j :: 0 <= j < |c.outputs| ==>
              AttributeItems(c)[|c.inputs| + j] == CompletionItem(c.outputs[j], Some(Field), Some("(" + c.outputs[j] + ")=\"$0\""), Some(Snippet))
  {
    var ins := MakeCompletions(c.inputs, INPUT_TEMPLATE);
    var outs := MakeCompletions(c.outputs, OUTPUT_TEMPLATE);
    forall i | 0 <= i < |c.inputs|
      ensures AttributeItems(c)[i] == CompletionItem(c.inputs[i], Some(Field), Some("[" + c.inputs[i] + "]=\"$0\""), Some(Snippet))
    {
      InputSnippet(c.inputs[i]);
      assert AttributeItems(c)[i] == ins[i] == SnippetItem(c.inputs[i], INPUT_TEMPLATE);
    }
    forall j | 0 <= j < |c.outputs|
      ensures AttributeItems(c)[|c.inputs| + j] == CompletionItem(c.outputs[j], Some(Field), Some("(" + c.outputs[j] + ")=\"$0\""), Some(Snippet))
    {
      OutputSnippet(c.outputs[j]);
      assert AttributeItems(c)[|c.inputs| + j] == outs[j] == SnippetItem(c.outputs[j], OUTPUT_TEMPLATE);
    }
  }

  /** On an attribute name of a tag whose name text is a key: that component's attribute items. */
  lemma CompletionOnAttribute(root: Node, offset: nat, doc: string, index: map<string, Component>, order: seq<string>, tag: Node, nameNode: Node)
    requires InDocument(root, |doc|) && IsIterationOrder(order, index)
    requires FindFrom(root, offset, TAG_KINDS) == Some(tag) && FindFrom(tag, offset, TAG_NAME).None?
    requires FindFrom(tag, offset, ATTRIBUTE_NAME).Some?
    requires FirstNamedChild(tag) == Some(nameNode) && nameNode.start <= nameNode.end <= |doc|
    requires Text(doc, nameNode) in index
    ensures Completion(root, offset, doc, index, order) == AttributeItems(index[Text(doc, nameNode)])
  {
  }

  /** For a record built by the analysis, the attribute items are labelled with its
      `Input` members and then its other members, in match order. */
  lemma AttributeItemsOfMatch(url: Url, m: ComponentMatch)
    ensures |AttributeItems(Assemble(url, m))| == |m.members|
    ensures forall i :: 0 <= i < |m.members| ==>
              AttributeItems(Assemble(url, m))[i].labelText == (InputNames(m.members) + OutputNames(m.members))[i]
    ensures forall i :: 0 <= i < |m.members| ==> AttributeItems(Assemble(url, m))[i].kind == Some(Field)
  {
    SortPartitions(m.members);
  }
}
