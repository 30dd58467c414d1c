/** `apply_masking`: entities are sorted by start, overlapping ones are merged
    into spans, and each span's text is replaced by its masked form. */
module Masking {
  import opened Seqs
  import opened Entities
  import opened MaskPolicy

  /** One entry of `merged_spans`: `[s, e, label]`. */
  datatype Merged = Merged(start: nat, end: nat, category: Label)

  /** One iteration of the merge loop: an entity starting at or after the
      last span's end opens a new span (touching spans stay apart); an
      overlapping one widens the last span, and a pattern label replaces the
      span's label. */
  function MergeStep(ms: seq<Merged>, e: Entity): seq<Merged>
  {
    if ms == [] || e.start >= ms[|ms| - 1].end then ms + [Merged(e.start, e.end, e.category)]
    else
      var last := ms[|ms| - 1];
      ms[..|ms| - 1] + [Merged(last.start, Max(last.end, e.end), if IsMandatory(e.category) then e.category else last.category)]
  }

  function Merge(es: seq<Entity>): seq<Merged>
  {
    if es == [] then [] else MergeStep(Merge(es[..|es| - 1]), es[|es| - 1])
  }

  /** Every span is a range and the spans come in order without overlap. */
  predicate Disjoint(ms: seq<Merged>)
  {
    && (forall k :: 0 <= k < |ms| ==> ms[k].start <= ms[k].end)
    && (forall a, b :: 0 <= a < b < |ms| ==> ms[a].end <= ms[b].start)
  }

  predicate Ranges(es: seq<Entity>)
  {
    forall j :: 0 <= j < |es| ==> es[j].start <= es[j].end
  }

  predicate WithinSpan(m: Merged, e: Entity)
  {
    m.start <= e.start && e.end <= m.end
  }

  /** Entity `e` lies within some span, and if its label is a pattern label,
      so is that span's. */
  predicate Absorbed(ms: seq<Merged>, e: Entity)
  {
    exists k :: 0 <= k < |ms| && WithinSpan(ms[k], e) && (IsMandatory(e.category) ==> IsMandatory(ms[k].category))
  }

  predicate CoveredBy(es: seq<Entity>, pos: int)
  {
    exists j :: 0 <= j < |es| && es[j].start <= pos < es[j].end
  }

  predicate InSpans(ms: seq<Merged>, pos: int)
  {
    exists k :: 0 <= k < |ms| && ms[k].start <= pos < ms[k].end
  }

  // ---- the merge loop ----

  /** The merged spans are ordered and disjoint. */
  lemma {:induction false} MergeDisjoint(es: seq<Entity>)
    requires Ranges(es)
    ensures Disjoint(Merge(es))
    decreases |es|
  {
    if es != [] {
      MergeDisjoint(es[..|es| - 1]);
      StepDisjoint(Merge(es[..|es| - 1]), es[|es| - 1]);
    }
  }

  /** One merge step keeps the spans ordered and disjoint. */
  lemma StepDisjoint(ms: seq<Merged>, e: Entity)
    requires Disjoint(ms) && e.start <= e.end
    ensures Disjoint(MergeStep(ms, e))
  {
    var r := MergeStep(ms, e);
    if ms != [] && e.start < ms[|ms| - 1].end {
      assert forall k :: 0 <= k < |ms| - 1 ==> r[k] == ms[k];
    } else {
      assert forall k :: 0 <= k < |ms| ==> r[k] == ms[k];
    }
  }

  /** The merged spans' ends never exceed the entities' ends. */
  lemma {:induction false} MergeBounded(es: seq<Entity>, bound: nat)
    requires forall j :: 0 <= j < |es| ==> es[j].end <= bound
    ensures forall k :: 0 <= k < |Merge(es)| ==> Merge(es)[k].end <= bound
    decreases |es|
  {
    if es != [] {
      MergeBounded(es[..|es| - 1], bound);
    }
  }

  /** The last span starts no later than the last entity. */
  lemma {:induction false} MergeLastStart(es: seq<Entity>)
    requires es != [] && SortedBy(es, StartKey)
    ensures Merge(es) != [] && Merge(es)[|Merge(es)| - 1].start <= es[|es| - 1].start
    decreases |es|
  {
    if |es| > 1 {
      MergeLastStart(es[..|es| - 1]);
      assert StartKey(es[|es| - 2]) <= StartKey(es[|es| - 1]);
    }
  }

  /** Merging one more entity keeps every earlier entity absorbed. */
  lemma StepKeepsAbsorbed(ms: seq<Merged>, e: Entity, x: Entity)
    requires Absorbed(ms, x)
    ensures Absorbed(MergeStep(ms, e), x)
  {
    var k :| 0 <= k < |ms| && WithinSpan(ms[k], x) && (IsMandatory(x.category) ==> IsMandatory(ms[k].category));
    assert WithinSpan(MergeStep(ms, e)[k], x);
  }

  /** Merging a sorted entity absorbs it. */
  lemma StepAbsorbs(ms: seq<Merged>, e: Entity)
    requires e.start <= e.end
    requires ms != [] ==> ms[|ms| - 1].start <= e.start
    ensures Absorbed(MergeStep(ms, e), e)
  {
    var r := MergeStep(ms, e);
    assert WithinSpan(r[|r| - 1], e);
  }

  /** Every entity of a sorted list lies within a merged span, and a pattern
      entity's span carries a pattern label. */
  lemma {:induction false} MergeAbsorbs(es: seq<Entity>, j: nat)
    requires SortedBy(es, StartKey) && Ranges(es) && j < |es|
    ensures Absorbed(Merge(es), es[j])
    decreases |es|
  {
    var init := es[..|es| - 1];
    var e := es[|es| - 1];
    if j < |es| - 1 {
      MergeAbsorbs(init, j);
      StepKeepsAbsorbed(Merge(init), e, es[j]);
    } else {
      if init != [] {
        MergeLastStart(init);
        assert StartKey(es[|es| - 2]) <= StartKey(e);
      }
      StepAbsorbs(Merge(init), e);
    }
  }

  /** Every position of a merged span lies in some entity. */
  lemma {:induction false} MergeSound(es: seq<Entity>, pos: int)
    requires InSpans(Merge(es), pos)
    ensures CoveredBy(es, pos)
    decreases |es|
  {
    var init := es[..|es| - 1];
    var e := es[|es| - 1];
    var ms := Merge(init);
    var k :| 0 <= k < |Merge(es)| && Merge(es)[k].start <= pos < Merge(es)[k].end;
    if e.start <= pos < e.end {
      assert es[|es| - 1] == e;
    } else {
      if k < |ms| && (k < |ms| - 1 || e.start >= ms[|ms| - 1].end || pos < ms[k].end) {
        assert ms[k].start <= pos < ms[k].end;
        MergeSound(init, pos);
        var j :| 0 <= j < |init| && init[j].start <= pos < init[j].end;
        assert es[j] == init[j];
      } else {
        assert false;
      }
    }
  }

  /** One merge step either appends a span for the entity or rewrites the
      last span; earlier spans are untouched. */
  lemma StepShape(ms: seq<Merged>, e: Entity)
    ensures var r := MergeStep(ms, e);
      && (forall k :: 0 <= k < |ms| - 1 ==> r[k] == ms[k])
      && ((|r| == |ms| + 1 && r[..|ms|] == ms && r[|ms|] == Merged(e.start, e.end, e.category))
          || (ms != [] && |r| == |ms| && e.start < ms[|ms| - 1].end
              && r[|ms| - 1] == Merged(ms[|ms| - 1].start, Max(ms[|ms| - 1].end, e.end),
                                       if IsMandatory(e.category) then e.category else ms[|ms| - 1].category)))
  {
  }

  /** Every span's label is the label of some entity. */
  lemma {:induction false} MergeLabels(es: seq<Entity>, k: nat)
    requires k < |Merge(es)|
    ensures exists j :: 0 <= j < |es| && es[j].category == Merge(es)[k].category
    decreases |es|
  {
    var init := es[..|es| - 1];
    var ms := Merge(init);
    var r := Merge(es);
    StepShape(ms, es[|es| - 1]);
    if r[k].category != es[|es| - 1].category {
      assert k < |ms| && r[k].category == ms[k].category;
      MergeLabels(init, k);
      var j :| 0 <= j < |init| && init[j].category == ms[k].category;
      assert es[j] == init[j];
    }
  }

  /** `[3,5]` and `[5,23]` only touch, so a name followed directly by an
      identity number stays two spans, each with its own label. */
  lemma TouchingStaysApart(t: string)
    ensures Merge([Entity(Name, 3, 5, t, TaskflowChunk), Entity(IdCard, 5, 23, t, Regex)])
            == [Merged(3, 5, Name), Merged(5, 23, IdCard)]
  {
    var es := [Entity(Name, 3, 5, t, TaskflowChunk), Entity(IdCard, 5, 23, t, Regex)];
    assert es[..1] == [es[0]] && [es[0]][..0] == [];
    assert Merge(es[..1]) == [Merged(3, 5, Name)];
  }

  /** An overlapping pattern entity takes over a semantic span's label, but
      an overlapping semantic entity does not take over a pattern span's. */
  lemma PatternLabelExample(t: string)
    ensures Merge([Entity(Name, 0, 5, t, TaskflowChunk), Entity(IdCard, 3, 21, t, Regex)]) == [Merged(0, 21, IdCard)]
    ensures Merge([Entity(IdCard, 0, 18, t, Regex), Entity(Name, 10, 12, t, TaskflowChunk)]) == [Merged(0, 18, IdCard)]
  {
    var es := [Entity(Name, 0, 5, t, TaskflowChunk), Entity(IdCard, 3, 21, t, Regex)];
    assert es[..1] == [es[0]] && [es[0]][..0] == [];
    assert Merge(es[..1]) == [Merged(0, 5, Name)];
    var fs := [Entity(IdCard, 0, 18, t, Regex), Entity(Name, 10, 12, t, TaskflowChunk)];
    assert fs[..1] == [fs[0]] && [fs[0]][..0] == [];
    assert Merge(fs[..1]) == [Merged(0, 18, IdCard)];
  }

  // ---- the replacement loop ----

  /** A per-label masking rule: given a span's text and label, the text that
      replaces it. The loop below works for any rule; `ApplyMasking` uses the
      rules of `MaskPolicy`. */
  type Rule = (string, Label) -> string

  /** The rule keeps each span's length. */
  ghost predicate Keeps(mask: Rule)
  {
    forall s, l :: |mask(s, l)| == |s|
  }

  /** The rule only ever writes `'*'` over a character. */
  ghost predicate StarsOnly(mask: Rule)
  {
    forall s, l, i :: 0 <= i < |s| && i < |mask(s, l)| ==> mask(s, l)[i] == s[i] || mask(s, l)[i] == '*'
  }

  /** The rules of `MaskPolicy`, as one function. */
  function PolicyRule(cc: CharTests): (mask: Rule)
    ensures Keeps(mask) && StarsOnly(mask)
  {
    var mask := (s: string, l: Label) => Masked(cc, s, l);
    assert Keeps(mask);
    assert StarsOnly(mask) by {
      forall s, l, i | 0 <= i < |s| && i < |mask(s, l)|
        ensures mask(s, l)[i] == s[i] || mask(s, l)[i] == '*'
      {
        var m := Masked(cc, s, l);
        MaskedAt(cc, s, l, i);
        assert m[i] == s[i] || m[i] == '*';
        assert mask(s, l) == m;
      }
    }
    mask
  }

  /** The output from `prev` on: the gap before each span, the span masked,
      then the rest of the text. */
  function Render(mask: Rule, text: string, ms: seq<Merged>, prev: nat): string
    decreases |ms|
  {
    if ms == [] then Slice(text, prev, |text|)
    else
      Slice(text, prev, ms[0].start)
      + mask(Slice(text, ms[0].start, ms[0].end), ms[0].category)
      + Render(mask, text, ms[1..], ms[0].end)
  }

  /** `apply_masking(text, entities)`. */
  function ApplyMasking(cc: CharTests, text: string, es: seq<Entity>): string
  {
    Render(PolicyRule(cc), text, Merge(SortBy(es, StartKey)), 0)
  }

  /** What position `i` of the output holds: the masked character of the span
      that contains it, or the original character. */
  function Expected(mask: Rule, text: string, ms: seq<Merged>, i: nat): char
    requires Keeps(mask) && i < |text|
    requires forall k :: 0 <= k < |ms| ==> ms[k].start <= ms[k].end <= |text|
  {
    if ms == [] then text[i]
    else if ms[0].start <= i < ms[0].end then mask(text[ms[0].start..ms[0].end], ms[0].category)[i - ms[0].start]
    else Expected(mask, text, ms[1..], i)
  }

  predicate InText(ms: seq<Merged>, n: nat)
  {
    forall k :: 0 <= k < |ms| ==> ms[k].start <= ms[k].end <= n
  }

  /** Before the first span, the expected character is the original. */
  lemma {:induction false} ExpectedBefore(mask: Rule, text: string, ms: seq<Merged>, i: nat)
    requires Keeps(mask) && i < |text| && InText(ms, |text|) && Disjoint(ms)
    requires ms != [] ==> i < ms[0].start
    ensures Expected(mask, text, ms, i) == text[i]
    decreases |ms|
  {
    if ms != [] {
      ExpectedBefore(mask, text, ms[1..], i);
    }
  }

  /** The first span's part of the output, spelled with plain slices. */
  lemma RenderUnfold(mask: Rule, text: string, ms: seq<Merged>, prev: nat)
    requires Keeps(mask) && ms != [] && prev <= ms[0].start <= ms[0].end <= |text|
    ensures Render(mask, text, ms, prev)
         == text[prev..ms[0].start] + mask(text[ms[0].start..ms[0].end], ms[0].category) + Render(mask, text, ms[1..], ms[0].end)
  {
  }

  /** The expected character, read off the first span. */
  lemma ExpectedFirst(mask: Rule, text: string, ms: seq<Merged>, i: nat)
    requires Keeps(mask) && InText(ms, |text|) && Disjoint(ms) && ms != [] && i < |text|
    ensures Expected(mask, text, ms, i)
         == if i < ms[0].start then text[i]
            else if i < ms[0].end then mask(text[ms[0].start..ms[0].end], ms[0].category)[i - ms[0].start]
            else Expected(mask, text, ms[1..], i)
  {
    if i < ms[0].start {
      var tail := ms[1..];
      assert InText(tail, |text|) && Disjoint(tail);
      assert tail != [] ==> ms[0].end <= tail[0].start;
      ExpectedBefore(mask, text, tail, i);
    }
  }

  /** One position of the output, given the rest of the output: the gap
      before the first span, the span masked, then `rest`. */
  lemma RenderAt(mask: Rule, text: string, ms: seq<Merged>, prev: nat, rest: string, i: nat)
    requires Keeps(mask) && InText(ms, |text|) && Disjoint(ms) && ms != []
    requires prev <= ms[0].start && prev <= i < |text|
    requires |rest| == |text| - ms[0].end
    requires i >= ms[0].end ==> rest[i - ms[0].end] == Expected(mask, text, ms[1..], i)
    ensures var out := text[prev..ms[0].start] + mask(text[ms[0].start..ms[0].end], ms[0].category) + rest;
      |out| == |text| - prev && out[i - prev] == Expected(mask, text, ms, i)
  {
    var m := ms[0];
    PiecesAt(text, prev, m.start, m.end, mask(text[m.start..m.end], m.category), rest, i);
    ExpectedFirst(mask, text, ms, i);
  }

  /** The output has the text's length from `prev` on. */
  lemma {:induction false} RenderLength(mask: Rule, text: string, ms: seq<Merged>, prev: nat)
    requires Keeps(mask) && InText(ms, |text|) && Disjoint(ms)
    requires prev <= |text| && (ms != [] ==> prev <= ms[0].start)
    ensures |Render(mask, text, ms, prev)| == |text| - prev
    decreases |ms|
  {
    if ms != [] {
      var tail := ms[1..];
      assert InText(tail, |text|) && Disjoint(tail);
      assert tail != [] ==> ms[0].end <= tail[0].start;
      RenderLength(mask, text, tail, ms[0].end);
      RenderUnfold(mask, text, ms, prev);
    }
  }

  /** Position `i` of the output holds the expected character. */
  lemma {:induction false} RenderPosition(mask: Rule, text: string, ms: seq<Merged>, prev: nat, i: nat)
    requires Keeps(mask) && InText(ms, |text|) && Disjoint(ms)
    requires (ms != [] ==> prev <= ms[0].start) && prev <= i < |text|
    ensures |Render(mask, text, ms, prev)| == |text| - prev
    ensures Render(mask, text, ms, prev)[i - prev] == Expected(mask, text, ms, i)
    decreases |ms|
  {
    RenderLength(mask, text, ms, prev);
    if ms != [] {
      var m := ms[0];
      var tail := ms[1..];
      assert InText(tail, |text|) && Disjoint(tail);
      assert tail != [] ==> m.end <= tail[0].start;
      RenderLength(mask, text, tail, m.end);
      if i >= m.end {
        RenderPosition(mask, text, tail, m.end, i);
      }
      RenderUnfold(mask, text, ms, prev);
      RenderAt(mask, text, ms, prev, Render(mask, text, tail, m.end), i);
    }
  }

  /** The output has the text's length and holds the expected character at
      each position. */
  lemma RenderPointwise(mask: Rule, text: string, ms: seq<Merged>, prev: nat)
    requires Keeps(mask) && InText(ms, |text|) && Disjoint(ms)
    requires prev <= |text| && (ms != [] ==> prev <= ms[0].start)
    ensures |Render(mask, text, ms, prev)| == |text| - prev
    ensures forall i :: prev <= i < |text| ==> Render(mask, text, ms, prev)[i - prev] == Expected(mask, text, ms, i)
  {
    RenderLength(mask, text, ms, prev);
    forall i | prev <= i < |text|
      ensures Render(mask, text, ms, prev)[i - prev] == Expected(mask, text, ms, i)
    {
      RenderPosition(mask, text, ms, prev, i);
    }
  }

  /** Where the expected character differs from the original, some span
      contains the position. */
  lemma {:induction false} ExpectedInSpans(mask: Rule, text: string, ms: seq<Merged>, i: nat)
    requires Keeps(mask) && StarsOnly(mask) && i < |text| && InText(ms, |text|)
    ensures Expected(mask, text, ms, i) != text[i] ==> InSpans(ms, i)
    ensures Expected(mask, text, ms, i) == text[i] || Expected(mask, text, ms, i) == '*'
    decreases |ms|
  {
    if ms != [] && !(ms[0].start <= i < ms[0].end) {
      ExpectedInSpans(mask, text, ms[1..], i);
      if InSpans(ms[1..], i) {
        var k :| 0 <= k < |ms[1..]| && ms[1..][k].start <= i < ms[1..][k].end;
        assert ms[k + 1] == ms[1..][k];
      }
    }
  }

  /** Within a span of disjoint spans, the expected character is that span's
      masked character. */
  lemma {:induction false} ExpectedInSpan(mask: Rule, text: string, ms: seq<Merged>, k: nat, i: nat)
    requires Keeps(mask) && i < |text| && InText(ms, |text|) && Disjoint(ms)
    requires k < |ms| && ms[k].start <= i < ms[k].end
    ensures Expected(mask, text, ms, i) == mask(text[ms[k].start..ms[k].end], ms[k].category)[i - ms[k].start]
    decreases k
  {
    if k > 0 {
      DisjointTail(ms, |text|);
      assert ms[1..][k - 1] == ms[k];
      ExpectedInSpan(mask, text, ms[1..], k - 1, i);
    }
  }

  lemma DisjointTail(ms: seq<Merged>, n: nat)
    requires ms != [] && InText(ms, n) && Disjoint(ms)
    ensures InText(ms[1..], n) && Disjoint(ms[1..])
  {
  }

  // ---- the whole operation ----

  /** The merged spans of the sorted entities, with their facts. */
  lemma SpansOf(text: string, es: seq<Entity>)
    requires forall e :: e in es ==> e.start <= e.end <= |text|
    ensures var ms := Merge(SortBy(es, StartKey));
      InText(ms, |text|) && Disjoint(ms)
  {
    var sorted := SortBy(es, StartKey);
    SortByProperties(es, StartKey);
    forall j | 0 <= j < |sorted|
      ensures sorted[j].start <= sorted[j].end <= |text|
    {
      SortByMembers(es, StartKey, j);
    }
    MergeDisjoint(sorted);
    MergeBounded(sorted, |text|);
  }

  /** Masking keeps the text's length, and each position is either the
      original character or `'*'`. */
  lemma MaskingShape(cc: CharTests, text: string, es: seq<Entity>)
    requires forall e :: e in es ==> e.start <= e.end <= |text|
    ensures |ApplyMasking(cc, text, es)| == |text|
    ensures forall i :: 0 <= i < |text| ==> ApplyMasking(cc, text, es)[i] == text[i] || ApplyMasking(cc, text, es)[i] == '*'
  {
    var ms := Merge(SortBy(es, StartKey));
    SpansOf(text, es);
    RenderPointwise(PolicyRule(cc), text, ms, 0);
    forall i | 0 <= i < |text|
      ensures ApplyMasking(cc, text, es)[i] == text[i] || ApplyMasking(cc, text, es)[i] == '*'
    {
      ExpectedInSpans(PolicyRule(cc), text, ms, i);
    }
  }

  /** A position outside every entity keeps its character. */
  lemma MaskingOutside(cc: CharTests, text: string, es: seq<Entity>, i: nat)
    requires forall e :: e in es ==> e.start <= e.end <= |text|
    requires i < |text| && forall e :: e in es ==> !(e.start <= i < e.end)
    ensures |ApplyMasking(cc, text, es)| == |text| && ApplyMasking(cc, text, es)[i] == text[i]
  {
    var sorted := SortBy(es, StartKey);
    var ms := Merge(sorted);
    SpansOf(text, es);
    RenderPointwise(PolicyRule(cc), text, ms, 0);
    ExpectedInSpans(PolicyRule(cc), text, ms, i);
    if InSpans(ms, i) {
      MergeSound(sorted, i);
      var j :| 0 <= j < |sorted| && sorted[j].start <= i < sorted[j].end;
      SortByMembers(es, StartKey, j);
    }
  }

  /** Inside a merged span, the output holds that span's masked text. */
  lemma MaskingAtSpan(cc: CharTests, text: string, es: seq<Entity>, k: nat, i: nat)
    requires forall x :: x in es ==> x.start <= x.end <= |text|
    requires k < |Merge(SortBy(es, StartKey))|
    requires Merge(SortBy(es, StartKey))[k].start <= i < Merge(SortBy(es, StartKey))[k].end
    ensures var m := Merge(SortBy(es, StartKey))[k];
      && i < |ApplyMasking(cc, text, es)| && m.end <= |text|
      && ApplyMasking(cc, text, es)[i] == Masked(cc, text[m.start..m.end], m.category)[i - m.start]
  {
    var ms := Merge(SortBy(es, StartKey));
    SpansOf(text, es);
    RenderPointwise(PolicyRule(cc), text, ms, 0);
    ExpectedInSpan(PolicyRule(cc), text, ms, k, i);
  }

  /** Each entity lies within one merged span (whose characters
      `MaskingAtSpan` describes), and that span carries a pattern label
      whenever the entity does. */
  lemma MaskingAbsorbs(es: seq<Entity>, e: Entity)
    requires forall x :: x in es ==> x.start <= x.end
    requires e in es
    ensures Absorbed(Merge(SortBy(es, StartKey)), e)
  {
    var sorted := SortBy(es, StartKey);
    SortByProperties(es, StartKey);
    assert e in multiset(sorted);
    var j :| 0 <= j < |sorted| && sorted[j] == e;
    forall x | 0 <= x < |sorted|
      ensures sorted[x].start <= sorted[x].end
    {
      SortByMembers(es, StartKey, x);
    }
    MergeAbsorbs(sorted, j);
  }
}
