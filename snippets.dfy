/** Filling the `{}` hole of a completion template, as Rust's `str::replace("{}", value)` does. */
module Snippets {
  /** `template` contains the two-character hole `{}` at position `i`. */
  predicate HoleAt(template: string, i: int) {
    0 <= i && i + 1 < |template| && template[i] == '{' && template[i + 1] == '}'
  }

  /** Every `{}` of `template`, read left to right without overlap, replaced by `value`. */
  function ReplaceHoles(template: string, value: string): string
    decreases |template|
  {
    if |template| < 2 then template
    else if HoleAt(template, 0) then value + ReplaceHoles(template[2..], value)
    else [template[0]] + ReplaceHoles(template[1..], value)
  }

  /** Putting `{}` back in for every hole gives the template again. */
  lemma {:induction false} ReplaceHolesByHole(template: string)
    ensures ReplaceHoles(template, "{}") == template
    decreases |template|
  {
    if |template| >= 2 {
      if HoleAt(template, 0) {
        ReplaceHolesByHole(template[2..]);
        assert template == "{}" + template[2..];
      } else {
        ReplaceHolesByHole(template[1..]);
        assert template == [template[0]] + template[1..];
      }
    }
  }

  /** A template without a `{` has no hole and is left as it is. */
  lemma {:induction false} ReplaceHolesNoBrace(template: string, value: string)
    requires forall i :: 0 <= i < |template| ==> template[i] != '{'
    ensures ReplaceHoles(template, value) == template
    decreases |template|
  {
    if |template| >= 2 {
      ReplaceHolesNoBrace(template[1..], value);
    }
  }

  /** A literal prefix without `{`, one hole, then a tail without `{`: only the hole changes. */
  lemma {:induction false} ReplaceSingleHole(prefix: string, tail: string, value: string)
    requires forall i :: 0 <= i < |prefix| ==> prefix[i] != '{'
    requires forall i :: 0 <= i < |tail| ==> tail[i] != '{'
    ensures ReplaceHoles(prefix + "{}" + tail, value) == prefix + value + tail
    decreases |prefix|
  {
    var hole := "{}";
    var t := prefix + hole + tail;
    if prefix == [] {
      assert t == hole + tail;
      assert HoleAt(t, 0);
      assert t[2..] == tail;
      ReplaceHolesNoBrace(tail, value);
    } else {
      assert t[0] == prefix[0] && prefix[0] != '{';
      assert t[1..] == prefix[1..] + hole + tail;
      ReplaceSingleHole(prefix[1..], tail, value);
      calc {
        ReplaceHoles(t, value);
        [t[0]] + ReplaceHoles(t[1..], value);
        [prefix[0]] + (prefix[1..] + value + tail);
        { assert [prefix[0]] + prefix[1..] == prefix; }
        prefix + value + tail;
      }
    }
  }

  const INPUT_TEMPLATE: string := "[{}]=\"$0\""
  const OUTPUT_TEMPLATE: string := "({})=\"$0\""

  /** An input `x` is inserted as the property binding `[x]="$0"`. */
  lemma InputSnippet(x: string)
    ensures ReplaceHoles(INPUT_TEMPLATE, x) == "[" + x + "]=\"$0\""
  {
    assert INPUT_TEMPLATE == "[" + "{}" + "]=\"$0\"";
    ReplaceSingleHole("[", "]=\"$0\"", x);
  }

  /** An output `x` is inserted as the event binding `(x)="$0"`. */
  lemma OutputSnippet(x: string)
    ensures ReplaceHoles(OUTPUT_TEMPLATE, x) == "(" + x + ")=\"$0\""
  {
    assert OUTPUT_TEMPLATE == "(" + "{}" + ")=\"$0\"";
    ReplaceSingleHole("(", ")=\"$0\"", x);
  }
}
