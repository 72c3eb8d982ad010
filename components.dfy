/**
 * `ComponentAnalyzer::analyze_file` and `analyze_workspace`: turning the
 * component-query and input/output-query matches of a TypeScript file into
 * component records, and inserting them into the shared component index,
 * keyed by selector.
 */
module Components {
  import opened LspTypes

  /** One input/output-query match: the decorator's name and the member's name. */
  datatype MemberMatch = MemberMatch(decorator: string, name: string)

  /** One component-query match, with the input/output matches found inside its declaration. */
  datatype ComponentMatch = ComponentMatch(selector: string, className: TsRange, members: seq<MemberMatch>)

  datatype Component = Component(
    selector: string,
    fileUrl: Url,
    classNameRange: Range,
    inputs: seq<string>,
    outputs: seq<string>)

  /** A TypeScript file of the workspace with the component matches found in it. */
  datatype SourceFile = SourceFile(url: Url, matches: seq<ComponentMatch>)

  /** An entry of the workspace glob: a file, or an error the scan logs and skips. */
  datatype GlobEntry = Found(file: SourceFile) | GlobError

  const INPUT: string := "Input"

  /** The input query's `#match? @dec-name "Input|Output"` filter: an unanchored regular expression. */
  ghost predicate PassesInOutFilter(decorator: string) {
    exists i :: OccursAt(decorator, "Input", i) || OccursAt(decorator, "Output", i)
  }

  predicate OccursAt(s: string, pattern: string, i: int) {
    0 <= i && i + |pattern| <= |s| && s[i..i + |pattern|] == pattern
  }

  /** Names of the members whose decorator is exactly `Input`, in match order. */
  function InputNames(ms: seq<MemberMatch>): seq<string>
    decreases |ms|
  {
    if ms == [] then []
    else InputNames(ms[..|ms| - 1]) + (if ms[|ms| - 1].decorator == INPUT then [ms[|ms| - 1].name] else [])
  }

  /** Names of all the other members, in match order. */
  function OutputNames(ms: seq<MemberMatch>): seq<string>
    decreases |ms|
  {
    if ms == [] then []
    else OutputNames(ms[..|ms| - 1]) + (if ms[|ms| - 1].decorator != INPUT then [ms[|ms| - 1].name] else [])
  }

  function Names(ms: seq<MemberMatch>): (r: seq<string>)
    ensures |r| == |ms| && forall i :: 0 <= i < |ms| ==> r[i] == ms[i].name
  {
    seq(|ms|, i requires 0 <= i < |ms| => ms[i].name)
  }

  /** The inner loop of `analyze_file`: each member goes to `inputs` or `outputs` by its decorator. */
  method SortMembers(members: seq<MemberMatch>) returns (inputs: seq<string>, outputs: seq<string>)
    ensures inputs == InputNames(members) && outputs == OutputNames(members)
  {
    inputs, outputs := [], [];
    for i := 0 to |members|
      invariant inputs == InputNames(members[..i])
      invariant outputs == OutputNames(members[..i])
    {
      assert members[..i + 1][..i] == members[..i];
      var m := members[i];
      if m.decorator == INPUT {
        inputs := inputs + [m.name];
      } else {
        outputs := outputs + [m.name];
      }
    }
    assert members[..|members|] == members;
  }

  /** Sorting distributes over concatenation: the order of the matches is kept. */
  lemma {:induction false} SortAppend(a: seq<MemberMatch>, b: seq<MemberMatch>)
    ensures InputNames(a + b) == InputNames(a) + InputNames(b)
    ensures OutputNames(a + b) == OutputNames(a) + OutputNames(b)
    decreases |b|
  {
    if b == [] {
      assert a + b == a;
    } else {
      var b' := b[..|b| - 1];
      assert (a + b)[..|a + b| - 1] == a + b';
      SortAppend(a, b');
    }
  }

  /** Every member lands in exactly one list, duplicates included. */
  lemma {:induction false} SortPartitions(ms: seq<MemberMatch>)
    ensures multiset(InputNames(ms)) + multiset(OutputNames(ms)) == multiset(Names(ms))
    ensures |InputNames(ms)| + |OutputNames(ms)| == |ms|
    decreases |ms|
  {
    if ms != [] {
      var init := ms[..|ms| - 1];
      SortPartitions(init);
      assert Names(ms) == Names(init) + [ms[|ms| - 1].name];
    }
  }

  /** A name is an input exactly when some member with that name is decorated `Input`. */
  lemma {:induction false} InputNamesMembership(ms: seq<MemberMatch>, x: string)
    ensures x in InputNames(ms) <==> exists i :: 0 <= i < |ms| && ms[i].decorator == INPUT && ms[i].name == x
    ensures x in OutputNames(ms) <==> exists i :: 0 <= i < |ms| && ms[i].decorator != INPUT && ms[i].name == x
    decreases |ms|
  {
    if ms != [] {
      var init, last := ms[..|ms| - 1], ms[|ms| - 1];
      InputNamesMembership(init, x);
      assert forall i :: 0 <= i < |init| ==> init[i] == ms[i];
      assert InputNames(ms) == InputNames(init) + (if last.decorator == INPUT then [last.name] else []);
      assert OutputNames(ms) == OutputNames(init) + (if last.decorator != INPUT then [last.name] else []);
      if x == last.name {
        assert ms[|ms| - 1].name == x;
      }
    }
  }

  /** A decorator such as `ExtraInput` passes the filter and is sorted as an output. */
  lemma NonExactInputIsOutput()
    ensures PassesInOutFilter("ExtraInput")
    ensures OutputNames([MemberMatch("ExtraInput", "x")]) == ["x"]
    ensures InputNames([MemberMatch("ExtraInput", "x")]) == []
  {
    assert OccursAt("ExtraInput", "Input", 5);
    assert [MemberMatch("ExtraInput", "x")][..0] == [];
  }

  /** The component record one component match yields in `file`: every member name lands in
      exactly one of its two lists, and the record is keyed by the match's selector. */
  function Assemble(url: Url, m: ComponentMatch): (r: Component)
    ensures r.selector == m.selector && r.fileUrl == url
    ensures |r.inputs| + |r.outputs| == |m.members|
  {
    SortPartitions(m.members);
    Component(m.selector, url, ToRange(m.className), InputNames(m.members), OutputNames(m.members))
  }

  /** Every entry is stored under its own selector, as `insert(component.selector.clone(), component)` does. */
  ghost predicate KeyedBySelector(index: map<string, Component>) {
    forall k :: k in index ==> index[k].selector == k
  }

  /** The index after `analyze_file` has inserted the records of `ms`, in order. */
  function ApplyMatches(index: map<string, Component>, url: Url, ms: seq<ComponentMatch>): map<string, Component>
    decreases |ms|
  {
    if ms == [] then index
    else
      var last := ms[|ms| - 1];
      ApplyMatches(index, url, ms[..|ms| - 1])[last.selector := Assemble(url, last)]
  }

  function Selectors(ms: seq<ComponentMatch>): set<string> {
    set i | 0 <= i < |ms| :: ms[i].selector
  }

  /** The keys afterwards are the old keys and the new selectors: nothing is removed. */
  lemma {:induction false} ApplyMatchesKeys(index: map<string, Component>, url: Url, ms: seq<ComponentMatch>)
    ensures ApplyMatches(index, url, ms).Keys == index.Keys + Selectors(ms)
    decreases |ms|
  {
    if ms != [] {
      var init := ms[..|ms| - 1];
      ApplyMatchesKeys(index, url, init);
      assert Selectors(ms) == Selectors(init) + {ms[|ms| - 1].selector} by {
        assert forall i :: 0 <= i < |init| ==> init[i] == ms[i];
      }
    }
  }

  /** A key no match names keeps its old entry, or stays absent. */
  lemma {:induction false} ApplyMatchesUntouched(index: map<string, Component>, url: Url, ms: seq<ComponentMatch>, k: string)
    requires forall i :: 0 <= i < |ms| ==> ms[i].selector != k
    ensures k in ApplyMatches(index, url, ms) <==> k in index
    ensures k in index ==> ApplyMatches(index, url, ms)[k] == index[k]
    decreases |ms|
  {
    if ms != [] {
      ApplyMatchesUntouched(index, url, ms[..|ms| - 1], k);
    }
  }

  /** The last match with a given selector decides its entry. */
  lemma {:induction false} ApplyMatchesLastWins(index: map<string, Component>, url: Url, ms: seq<ComponentMatch>, i: nat)
    requires i < |ms|
    requires forall j :: i < j < |ms| ==> ms[j].selector != ms[i].selector
    ensures ms[i].selector in ApplyMatches(index, url, ms)
    ensures ApplyMatches(index, url, ms)[ms[i].selector] == Assemble(url, ms[i])
    decreases |ms|
  {
    if i < |ms| - 1 {
      ApplyMatchesLastWins(index, url, ms[..|ms| - 1], i);
    }
  }

  /** Inserting keeps every entry stored under its own selector. */
  lemma {:induction false} ApplyMatchesKeyed(index: map<string, Component>, url: Url, ms: seq<ComponentMatch>)
    requires KeyedBySelector(index)
    ensures KeyedBySelector(ApplyMatches(index, url, ms))
    decreases |ms|
  {
    if ms != [] {
      ApplyMatchesKeyed(index, url, ms[..|ms| - 1]);
    }
  }

  /** Analysing the same matches of the same file a second time changes nothing. */
  lemma ApplyMatchesIdempotent(index: map<string, Component>, url: Url, ms: seq<ComponentMatch>)
    ensures ApplyMatches(ApplyMatches(index, url, ms), url, ms) == ApplyMatches(index, url, ms)
  {
    var once := ApplyMatches(index, url, ms);
    var twice := ApplyMatches(once, url, ms);
    ApplyMatchesKeys(index, url, ms);
    ApplyMatchesKeys(once, url, ms);
    forall k | k in twice
      ensures twice[k] == once[k]
    {
      if k in Selectors(ms) {
        var i := LastWith(ms, k);
        ApplyMatchesLastWins(index, url, ms, i);
        ApplyMatchesLastWins(once, url, ms, i);
      } else {
        ApplyMatchesUntouched(once, url, ms, k);
      }
    }
  }

  /** The position of the last match with selector `k`. */
  lemma LastWith(ms: seq<ComponentMatch>, k: string) returns (i: nat)
    requires k in Selectors(ms)
    ensures i < |ms| && ms[i].selector == k
    ensures forall j :: i < j < |ms| ==> ms[j].selector != k
  {
    i := |ms| - 1;
    while ms[i].selector != k
      invariant 0 <= i < |ms|
      invariant forall j :: i < j < |ms| ==> ms[j].selector != k
      invariant exists j :: 0 <= j <= i && ms[j].selector == k
      decreases i
    {
      i := i - 1;
    }
  }

  /** The index after `analyze_workspace` has analysed the glob entries in order. */
  function ApplyEntries(index: map<string, Component>, entries: seq<GlobEntry>): map<string, Component>
    decreases |entries|
  {
    if entries == [] then index
    else
      var before := ApplyEntries(index, entries[..|entries| - 1]);
      match entries[|entries| - 1]
      case Found(f) => ApplyMatches(before, f.url, f.matches)
      case GlobError => before
  }

  /** `f` declares a component with selector `k`. */
  predicate Declares(e: GlobEntry, k: string) {
    e.Found? && exists j :: 0 <= j < |e.file.matches| && e.file.matches[j].selector == k
  }

  /** A selector no analysed file declares keeps its old entry, or stays absent. */
  lemma {:induction false} ApplyEntriesUntouched(index: map<string, Component>, entries: seq<GlobEntry>, k: string)
    requires forall i :: 0 <= i < |entries| ==> !Declares(entries[i], k)
    ensures k in ApplyEntries(index, entries) <==> k in index
    ensures k in index ==> ApplyEntries(index, entries)[k] == index[k]
    decreases |entries|
  {
    if entries != [] {
      var init := entries[..|entries| - 1];
      ApplyEntriesUntouched(index, init, k);
      var e := entries[|entries| - 1];
      if e.Found? {
        assert !Declares(e, k);
        ApplyMatchesUntouched(ApplyEntries(index, init), e.file.url, e.file.matches, k);
      }
    }
  }

  /** Last write wins across files: the last match for `k` in the last file declaring `k` decides the entry. */
  lemma {:induction false} ApplyEntriesLastWins(index: map<string, Component>, entries: seq<GlobEntry>, i: nat, j: nat)
    requires i < |entries| && entries[i].Found?
    requires j < |entries[i].file.matches|
    requires var f := entries[i].file;
             forall l :: j < l < |f.matches| ==> f.matches[l].selector != f.matches[j].selector
    requires forall l :: i < l < |entries| ==> !Declares(entries[l], entries[i].file.matches[j].selector)
    ensures var f := entries[i].file;
            f.matches[j].selector in ApplyEntries(index, entries) &&
            ApplyEntries(index, entries)[f.matches[j].selector] == Assemble(f.url, f.matches[j])
    decreases |entries|
  {
    var init := entries[..|entries| - 1];
    var f := entries[i].file;
    if i == |entries| - 1 {
      ApplyMatchesLastWins(ApplyEntries(index, init), f.url, f.matches, j);
    } else {
      ApplyEntriesLastWins(index, init, i, j);
      var e := entries[|entries| - 1];
      if e.Found? {
        assert !Declares(e, f.matches[j].selector);
        ApplyMatchesUntouched(ApplyEntries(index, init), e.file.url, e.file.matches, f.matches[j].selector);
      }
    }
  }

  /** The workspace scan never removes a key. */
  lemma {:induction false} ApplyEntriesGrows(index: map<string, Component>, entries: seq<GlobEntry>)
    ensures index.Keys <= ApplyEntries(index, entries).Keys
    decreases |entries|
  {
    if entries != [] {
      var init := entries[..|entries| - 1];
      ApplyEntriesGrows(index, init);
      if entries[|entries| - 1].Found? {
        var f := entries[|entries| - 1].file;
        ApplyMatchesKeys(ApplyEntries(index, init), f.url, f.matches);
      }
    }
  }

  lemma {:induction false} ApplyEntriesKeyed(index: map<string, Component>, entries: seq<GlobEntry>)
    requires KeyedBySelector(index)
    ensures KeyedBySelector(ApplyEntries(index, entries))
    decreases |entries|
  {
    if entries != [] {
      var init := entries[..|entries| - 1];
      ApplyEntriesKeyed(index, init);
      if entries[|entries| - 1].Found? {
        var f := entries[|entries| - 1].file;
        ApplyMatchesKeyed(ApplyEntries(index, init), f.url, f.matches);
      }
    }
  }

  /** The shared component index, selector to component record. */
  class ComponentIndex {
    var entries: map<string, Component>

    ghost predicate Valid()
      reads this
    {
      KeyedBySelector(entries)
    }

    constructor ()
      ensures Valid() && entries == map[]
    {
      entries := map[];
    }

    /** `component_index.insert(component.selector.clone(), component)` */
    method Insert(c: Component)
      requires Valid()
      modifies this
      ensures Valid()
      ensures entries == old(entries)[c.selector := c]
    {
      entries := entries[c.selector := c];
    }
  }

  /** The record assembly and insert loop of `analyze_file`, given the file's query matches. */
  method AnalyzeFile(url: Url, matches: seq<ComponentMatch>, index: ComponentIndex)
    requires index.Valid()
    modifies index
    ensures index.Valid()
    ensures index.entries == ApplyMatches(old(index.entries), url, matches)
  {
    for i := 0 to |matches|
      invariant index.Valid()
      invariant index.entries == ApplyMatches(old(index.entries), url, matches[..i])
    {
      assert matches[..i + 1][..i] == matches[..i];
      var m := matches[i];
      var inputs, outputs := SortMembers(m.members);
      var component := Component(m.selector, url, ToRange(m.className), inputs, outputs);
      index.Insert(component);
    }
    assert matches[..|matches|] == matches;
  }

  /** `analyze_workspace`: every glob entry in order, skipping the ones that could not be read. */
  method AnalyzeWorkspace(entries: seq<GlobEntry>, index: ComponentIndex)
    requires index.Valid()
    modifies index
    ensures index.Valid()
    ensures index.entries == ApplyEntries(old(index.entries), entries)
  {
    for i := 0 to |entries|
      invariant index.Valid()
      invariant index.entries == ApplyEntries(old(index.entries), entries[..i])
    {
      assert entries[..i + 1][..i] == entries[..i];
      match entries[i]
      case Found(f) =>
        AnalyzeFile(f.url, f.matches, index);
      case GlobError =>
    }
    assert entries[..|entries|] == entries;
  }
}
