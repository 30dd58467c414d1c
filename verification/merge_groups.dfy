/** The merge loop of `apply_masking` against an independent account of its
    result: the sorted entities fall into groups, each opened by an entity
    that overlaps none before it, and each group becomes one span. */
module MergeGroups {
  import opened Seqs
  import opened Entities
  import opened Masking

  /** The furthest end among the entities. */
  function MaxEnd(es: seq<Entity>): nat
  {
    if es == [] then 0 else Max(MaxEnd(es[..|es| - 1]), es[|es| - 1].end)
  }

  /** The label a group of overlapping entities is masked as: its first
      entity's label, replaced in turn by every later pattern label. */
  function GroupLabel(g: seq<Entity>): Label
    requires g != []
  {
    if |g| == 1 then g[0].category
    else if IsMandatory(g[|g| - 1].category) then g[|g| - 1].category
    else GroupLabel(g[..|g| - 1])
  }

  /** The span a group of entities is masked as. */
  function Span(g: seq<Entity>): Merged
    requires g != []
  {
    Merged(g[0].start, MaxEnd(g), GroupLabel(g))
  }

  /** Entity `s` opens a group: it starts at or after every earlier entity's
      end, so it overlaps none of them. */
  predicate Opens(es: seq<Entity>, s: nat)
  {
    s < |es| && forall i :: 0 <= i < s ==> es[i].end <= es[s].start
  }

  /** The entity that opens the last group; the first entity always opens
      one. */
  function LastOpen(es: seq<Entity>): (s: nat)
    requires es != []
    ensures Opens(es, s) && forall t :: s < t < |es| ==> !Opens(es, t)
    decreases |es|
  {
    if Opens(es, |es| - 1) then |es| - 1
    else
      var init := es[..|es| - 1];
      var s := LastOpen(init);
      assert forall t :: 0 <= t < |init| ==> (Opens(init, t) <==> Opens(es, t));
      s
  }

  /** The spans the masking should produce: each group runs from an entity
      that opens one up to the next such entity, and becomes one span. */
  function Grouped(es: seq<Entity>): seq<Merged>
    decreases |es|
  {
    if es == [] then [] else
      var s := LastOpen(es);
      Grouped(es[..s]) + [Span(es[s..])]
  }

  lemma GroupLabelUnfold(g: seq<Entity>)
    requires g != []
    ensures |g| == 1 ==> GroupLabel(g) == g[0].category
    ensures |g| > 1 ==> GroupLabel(g) == if IsMandatory(g[|g| - 1].category) then g[|g| - 1].category else GroupLabel(g[..|g| - 1])
  {
  }

  /** The group's label is the last pattern label after its first entity,
      or the first entity's label when no later entity has a pattern label:
      a semantic entity never changes the label of the group it joins. */
  lemma {:induction false} GroupLabelIs(g: seq<Entity>)
    requires g != []
    ensures (forall j :: 0 < j < |g| ==> !IsMandatory(g[j].category)) ==> GroupLabel(g) == g[0].category
    ensures (exists j :: 0 < j < |g| && IsMandatory(g[j].category)) ==>
              exists j :: 0 < j < |g| && IsMandatory(g[j].category) && GroupLabel(g) == g[j].category
                          && forall i :: j < i < |g| ==> !IsMandatory(g[i].category)
    decreases |g|
  {
    hide GroupLabel, IsMandatory;
    GroupLabelUnfold(g);
    if |g| > 1 {
      var n := |g|;
      var init := g[..n - 1];
      if !IsMandatory(g[n - 1].category) {
        GroupLabelIs(init);
        assert forall i :: 0 <= i < |init| ==> init[i] == g[i];
        if exists j :: 0 < j < n && IsMandatory(g[j].category) {
          var j0 :| 0 < j0 < n && IsMandatory(g[j0].category);
          assert 0 < j0 < |init| && IsMandatory(init[j0].category);
          var j :| 0 < j < |init| && IsMandatory(init[j].category) && GroupLabel(init) == init[j].category
                   && forall i :: j < i < |init| ==> !IsMandatory(init[i].category);
          assert forall i :: j < i < n ==> !IsMandatory(g[i].category);
        }
      }
    }
  }

  /** Every entity of the group ends no later than the group's furthest end,
      which is the end of one of them. */
  lemma {:induction false} MaxEndIs(g: seq<Entity>)
    requires g != []
    ensures forall k :: 0 <= k < |g| ==> g[k].end <= MaxEnd(g)
    ensures exists k :: 0 <= k < |g| && g[k].end == MaxEnd(g)
    decreases |g|
  {
    var init := g[..|g| - 1];
    if init != [] {
      MaxEndIs(init);
      assert forall k :: 0 <= k < |init| ==> init[k] == g[k];
    }
  }

  /** An entity starting at or after every earlier entity's end, in
      particular one that only touches the entity before it, opens a span of
      its own and leaves the earlier spans as they were. */
  lemma MergeNewSpan(es: seq<Entity>, e: Entity)
    requires forall j :: 0 <= j < |es| ==> es[j].end <= e.start
    ensures Merge(es + [e]) == Merge(es) + [Merged(e.start, e.end, e.category)]
  {
    hide Merge, MergeStep;
    var xs := es + [e];
    assert xs[..|xs| - 1] == es && xs[|xs| - 1] == e;
    MergeBounded(es, e.start);
    MergeUnfold(xs);
    StepOpens(Merge(es), e);
  }

  /** An entity starting at or after the end of every span opens a new one. */
  lemma StepOpens(ms: seq<Merged>, e: Entity)
    requires forall k :: 0 <= k < |ms| ==> ms[k].end <= e.start
    ensures MergeStep(ms, e) == ms + [Merged(e.start, e.end, e.category)]
  {
  }

  lemma MaxEndSpan(g: seq<Entity>)
    requires g != []
    ensures Span(g).end == MaxEnd(g)
  {
  }

  /** Extending a group by one entity. */
  lemma GroupAppend(g: seq<Entity>, e: Entity)
    requires g != []
    ensures MaxEnd(g + [e]) == Max(MaxEnd(g), e.end)
    ensures GroupLabel(g + [e]) == if IsMandatory(e.category) then e.category else GroupLabel(g)
  {
    assert (g + [e])[..|g|] == g;
  }

  /** A group of one entity is masked as that entity's range and label. */
  lemma SpanSingle(e: Entity)
    ensures Span([e]) == Merged(e.start, e.end, e.category)
  {
    assert [e][..0] == [] && MaxEnd([]) == 0;
    assert MaxEnd([e]) == Max(0, e.end);
  }

  /** Extending a group widens its span to the new end, and a pattern label
      replaces the span's label. */
  lemma SpanAppend(g: seq<Entity>, e: Entity)
    requires g != []
    ensures Span(g + [e]) == Merged(Span(g).start, Max(Span(g).end, e.end),
                                    if IsMandatory(e.category) then e.category else Span(g).category)
  {
    GroupAppend(g, e);
  }

  lemma MergeUnfold(es: seq<Entity>)
    requires es != []
    ensures Merge(es) == MergeStep(Merge(es[..|es| - 1]), es[|es| - 1])
  {
  }

  /** An entity starting before the last span's end joins that span. */
  lemma StepJoin(ms: seq<Merged>, e: Entity)
    requires ms != [] && e.start < ms[|ms| - 1].end
    ensures MergeStep(ms, e) == ms[..|ms| - 1] + [Merged(ms[|ms| - 1].start, Max(ms[|ms| - 1].end, e.end),
                                                        if IsMandatory(e.category) then e.category else ms[|ms| - 1].category)]
  {
  }

  /** For entities sorted by start, an entity that opens no group overlaps
      the group before it: it starts before that group's furthest end. */
  lemma JoinsLastGroup(es: seq<Entity>, s: nat)
    requires SortedBy(es, StartKey) && Opens(es, s) && s < |es| - 1 && !Opens(es, |es| - 1)
    ensures es[|es| - 1].start < MaxEnd(es[s..|es| - 1])
  {
    var e := es[|es| - 1];
    var g := es[s..|es| - 1];
    var i :| 0 <= i < |es| - 1 && es[i].end > e.start;
    if i < s {
      assert false;
    }
    MaxEndIs(g);
    assert g[i - s] == es[i];
  }

  /** For entities sorted by start, the last span is the last group's span,
      and the spans before it are those of the entities before that group. */
  lemma {:induction false} MergeLastGroup(es: seq<Entity>, s: nat)
    requires SortedBy(es, StartKey) && Opens(es, s) && forall t :: s < t < |es| ==> !Opens(es, t)
    ensures Merge(es) == Merge(es[..s]) + [Span(es[s..])]
    decreases |es|
  {
    hide Merge, MergeStep, Span, MaxEnd, GroupLabel;
    var n := |es|;
    var init := es[..n - 1];
    var e := es[n - 1];
    if s == n - 1 {
      assert es == init + [e] && es[..s] == init && es[s..] == [e];
      MergeNewSpan(init, e);
      SpanSingle(e);
    } else {
      assert forall t :: 0 <= t < |init| ==> (Opens(init, t) <==> Opens(es, t));
      assert SortedBy(init, StartKey);
      MergeLastGroup(init, s);
      var g := init[s..];
      assert init[..s] == es[..s] && es[s..n - 1] == g && es[s..] == g + [e];
      JoinsLastGroup(es, s);
      MaxEndSpan(g);
      var ms := Merge(init);
      assert ms[..|ms| - 1] == Merge(es[..s]) && ms[|ms| - 1] == Span(g);
      MergeUnfold(es);
      StepJoin(ms, e);
      SpanAppend(g, e);
    }
  }

  /** Merging entities sorted by start produces exactly one span per group:
      the span starts at the group's first entity, reaches the group's
      furthest end and carries the group's label. */
  lemma {:induction false} MergeGrouped(es: seq<Entity>)
    requires SortedBy(es, StartKey)
    ensures Merge(es) == Grouped(es)
    decreases |es|
  {
    if es != [] {
      var s := LastOpen(es);
      MergeLastGroup(es, s);
      var pre := es[..s];
      assert SortedBy(pre, StartKey) by {
        assert forall i :: 0 <= i < |pre| ==> pre[i] == es[i];
      }
      MergeGrouped(pre);
    }
  }

  /** For entities sorted by start, a further entity opens a new span if and
      only if it starts at or after every earlier entity's end; otherwise it
      joins the last span. */
  lemma MergeOpensIff(es: seq<Entity>, e: Entity)
    requires SortedBy(es + [e], StartKey)
    ensures |Merge(es + [e])| == |Merge(es)| + 1 <==> forall j :: 0 <= j < |es| ==> es[j].end <= e.start
    ensures |Merge(es + [e])| == |Merge(es)| || |Merge(es + [e])| == |Merge(es)| + 1
  {
    hide Merge, MergeStep, Span;
    var xs := es + [e];
    if forall j :: 0 <= j < |es| ==> es[j].end <= e.start {
      MergeNewSpan(es, e);
    } else {
      var j :| 0 <= j < |es| && es[j].end > e.start;
      assert xs[j] == es[j] && xs[|es|] == e;
      assert !Opens(xs, |es|);
      var s := LastOpen(xs);
      assert forall t :: 0 <= t < |es| ==> (Opens(es, t) <==> Opens(xs, t));
      assert xs[..|es|] == es;
      assert SortedBy(es, StartKey);
      MergeLastGroup(xs, s);
      MergeLastGroup(es, s);
      assert xs[..s] == es[..s];
    }
  }
}
