/**
 * The lookup inside `goto_definition`: the tag name under the offset is looked
 * up in the component index, and a hit yields the record's file and the range
 * of its class name.
 */
module Definitions {
  import opened Wrappers
  import opened LspTypes
  import opened SyntaxTree
  import opened FindNodes
  import opened Components

  function GotoDefinition(root: Node, offset: nat, doc: string, index: map<string, Component>): (r: Option<Location>)
    requires InDocument(root, |doc|)
    ensures FindFrom(root, offset, TAG_NAME).None? ==> r.None?
    ensures r.Some? ==> exists k :: k in index && r.value == Location(index[k].fileUrl, index[k].classNameRange)
  {
    match FindFrom(root, offset, TAG_NAME)
    case None => None
    case Some(n) =>
      FindFromInSubtree(root, offset, TAG_NAME);
      InDocumentSubtree(n, root, |doc|);
      var name := Text(doc, n);
      if name in index then Some(Location(index[name].fileUrl, index[name].classNameRange)) else None
  }

  /** A definition is found exactly when the text of the tag name under the offset is an index key. */
  lemma DefinitionResolves(root: Node, offset: nat, doc: string, index: map<string, Component>, n: Node)
    requires InDocument(root, |doc|)
    requires FindFrom(root, offset, TAG_NAME) == Some(n)
    ensures n.start <= n.end <= |doc|
    ensures GotoDefinition(root, offset, doc, index).Some? <==> Text(doc, n) in index
    ensures Text(doc, n) in index ==>
              GotoDefinition(root, offset, doc, index) == Some(Location(index[Text(doc, n)].fileUrl, index[Text(doc, n)].classNameRange))
  {
    FindFromInSubtree(root, offset, TAG_NAME);
    InDocumentSubtree(n, root, |doc|);
  }

  /**
   * After the workspace scan, a tag name resolves to the class name of the last
   * component match with that selector in the last file that declares it.
   */
  lemma DefinitionAfterScan(root: Node, offset: nat, doc: string, entries: seq<GlobEntry>, n: Node, i: nat, j: nat)
    requires InDocument(root, |doc|)
    requires FindFrom(root, offset, TAG_NAME) == Some(n)
    requires i < |entries| && entries[i].Found? && j < |entries[i].file.matches|
    requires n.start <= n.end <= |doc| && Text(doc, n) == entries[i].file.matches[j].selector
    requires var f := entries[i].file;
             forall l :: j < l < |f.matches| ==> f.matches[l].selector != f.matches[j].selector
    requires forall l :: i < l < |entries| ==> !Declares(entries[l], entries[i].file.matches[j].selector)
    ensures GotoDefinition(root, offset, doc, ApplyEntries(map[], entries)) ==
            Some(Location(entries[i].file.url, ToRange(entries[i].file.matches[j].className)))
  {
    ApplyEntriesLastWins(map[], entries, i, j);
    DefinitionResolves(root, offset, doc, ApplyEntries(map[], entries), n);
  }
}
