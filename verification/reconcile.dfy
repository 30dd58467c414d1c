/** The reconciliation step of `mask_custom`: pattern entities and semantic
    entities are merged into one dictionary keyed by `(start, end)`, every
    semantic literal is searched for again over the whole text (ignoring
    case), and the values come out sorted by start. */
module Reconcile {
  import opened Wrappers
  import opened Seqs
  import opened Entities
  import opened OrderedMaps

  type Span = (nat, nat)

  /** `d[(e["start"], e["end"])] = e` for each `e` in order. */
  function PutAll(d: Dict<Span, Entity>, es: seq<Entity>): Dict<Span, Entity>
  {
    if es == [] then d
    else
      var e := es[|es| - 1];
      Put(PutAll(d, es[..|es| - 1]), SpanOf(e), e)
  }

  /** The last entity of `es` with span `s`: the one a dictionary keyed by
      span keeps. */
  function LastWithSpan(es: seq<Entity>, s: Span): (r: Option<Entity>)
    ensures r.Some? ==> r.value in es && SpanOf(r.value) == s
    ensures r.None? ==> forall e :: e in es ==> SpanOf(e) != s
  {
    if es == [] then None
    else if SpanOf(es[|es| - 1]) == s then Some(es[|es| - 1])
    else
      var r := LastWithSpan(es[..|es| - 1], s);
      assert forall e :: e in es ==> e in es[..|es| - 1] || e == es[|es| - 1];
      r
  }

  /** Looking a span up after the loop finds the last entity with that span,
      or what was there before. */
  lemma {:induction false} PutAllGet(d: Dict<Span, Entity>, es: seq<Entity>, s: Span)
    ensures Get(PutAll(d, es), s) == if LastWithSpan(es, s).Some? then LastWithSpan(es, s) else Get(d, s)
    decreases |es|
  {
    if es != [] {
      var e := es[|es| - 1];
      PutAllGet(d, es[..|es| - 1], s);
      PutGet(PutAll(d, es[..|es| - 1]), SpanOf(e), e, s);
    }
  }

  lemma {:induction false} PutAllUnique(d: Dict<Span, Entity>, es: seq<Entity>)
    requires Unique(d)
    ensures Unique(PutAll(d, es))
    decreases |es|
  {
    if es != [] {
      PutAllUnique(d, es[..|es| - 1]);
      PutUnique(PutAll(d, es[..|es| - 1]), SpanOf(es[|es| - 1]), es[|es| - 1]);
    }
  }

  /** `tf_text_to_label`: each non-empty literal mapped to the label of the
      first semantic entity that carries it. */
  function FirstLabels(es: seq<Entity>): Dict<string, Label>
  {
    if es == [] then []
    else
      var d := FirstLabels(es[..|es| - 1]);
      var e := es[|es| - 1];
      if e.text != [] && !Has(d, e.text) then Put(d, e.text, e.category) else d
  }

  /** The first entity of `es` whose text is `t`. */
  function FirstWithText(es: seq<Entity>, t: string): (r: Option<Entity>)
    ensures r.Some? ==> r.value in es && r.value.text == t
  {
    if es == [] then None
    else
      match FirstWithText(es[..|es| - 1], t)
      case Some(e) => Some(e)
      case None => if es[|es| - 1].text == t then Some(es[|es| - 1]) else None
  }

  /** The first label seen for a literal wins; the empty literal gets none. */
  lemma {:induction false} FirstLabelsGet(es: seq<Entity>, t: string)
    ensures Get(FirstLabels(es), t) ==
      if t == [] || FirstWithText(es, t).None? then None else Some(FirstWithText(es, t).value.category)
    decreases |es|
  {
    if es != [] {
      var init := es[..|es| - 1];
      var e := es[|es| - 1];
      FirstLabelsGet(init, t);
      FirstLabelsGet(init, e.text);
      if e.text != [] && !Has(FirstLabels(init), e.text) {
        PutGet(FirstLabels(init), e.text, e.category, t);
      }
    }
  }

  lemma {:induction false} FirstLabelsUnique(es: seq<Entity>)
    ensures Unique(FirstLabels(es))
    decreases |es|
  {
    if es != [] {
      var init := es[..|es| - 1];
      FirstLabelsUnique(init);
      PutUnique(FirstLabels(init), es[|es| - 1].text, es[|es| - 1].category);
    }
  }

  /** `re.escape(t)` under `re.IGNORECASE` matches at `i`: the characters
      agree after case folding. */
  predicate MatchAt(cc: CharTests, text: string, t: string, i: nat)
  {
    i + |t| <= |text| && forall j :: 0 <= j < |t| ==> cc.fold(text[i + j]) == cc.fold(t[j])
  }

  /** The starts `re.finditer` reports from `from` on: leftmost matches, the
      search resuming after each one (one position on after an empty one). */
  function Occurrences(cc: CharTests, text: string, t: string, from: nat): seq<nat>
    decreases |text| + 1 - from
  {
    if from + |t| > |text| then []
    else if MatchAt(cc, text, t, from) then [from] + Occurrences(cc, text, t, from + Max(|t|, 1))
    else Occurrences(cc, text, t, from + 1)
  }

  /** Every reported start is a match at or after `from`, and the matches do
      not overlap. */
  lemma {:induction false} OccurrencesSound(cc: CharTests, text: string, t: string, from: nat)
    ensures forall p :: p in Occurrences(cc, text, t, from) ==> from <= p && MatchAt(cc, text, t, p)
    ensures forall i :: 0 <= i < |Occurrences(cc, text, t, from)| - 1 ==>
              Occurrences(cc, text, t, from)[i] + Max(|t|, 1) <= Occurrences(cc, text, t, from)[i + 1]
    decreases |text| + 1 - from
  {
    if from + |t| <= |text| {
      if MatchAt(cc, text, t, from) {
        var rest := Occurrences(cc, text, t, from + Max(|t|, 1));
        OccurrencesSound(cc, text, t, from + Max(|t|, 1));
        assert Occurrences(cc, text, t, from) == [from] + rest;
        assert rest != [] ==> rest[0] in rest;
      } else {
        OccurrencesSound(cc, text, t, from + 1);
      }
    }
  }

  /** No match is skipped except one overlapping a reported match. */
  lemma {:induction false} OccurrencesLeftmost(cc: CharTests, text: string, t: string, from: nat, q: nat)
    requires from <= q && MatchAt(cc, text, t, q)
    ensures q in Occurrences(cc, text, t, from) ||
            exists p :: p in Occurrences(cc, text, t, from) && p < q < p + |t|
    decreases |text| + 1 - from
  {
    if from == q {
      assert Occurrences(cc, text, t, from)[0] == q;
    } else {
      if MatchAt(cc, text, t, from) {
        var next := from + Max(|t|, 1);
        assert Occurrences(cc, text, t, from) == [from] + Occurrences(cc, text, t, next);
        if next <= q {
          OccurrencesLeftmost(cc, text, t, next, q);
          if q !in Occurrences(cc, text, t, next) {
            var p :| p in Occurrences(cc, text, t, next) && p < q < p + |t|;
            assert p in Occurrences(cc, text, t, from);
          }
        } else {
          assert from in Occurrences(cc, text, t, from) && from < q < from + |t|;
        }
      } else {
        OccurrencesLeftmost(cc, text, t, from + 1, q);
      }
    }
  }

  /** The inner loop over one literal's matches. */
  function ScanLiteral(d: Dict<Span, Entity>, tfOrig: Dict<Span, Entity>, text: string, t: string, l: Label, ps: seq<nat>)
    : Dict<Span, Entity>
  {
    if ps == [] then d
    else
      var d' := ScanLiteral(d, tfOrig, text, t, l, ps[..|ps| - 1]);
      var p := ps[|ps| - 1];
      var s: Span := (p, p + |t|);
      if Has(d', s) then d' else Put(d', s, ScanValue(tfOrig, text, t, l, p))
  }

  /** The entity stored for a new match at `p`: the semantic entity with that
      span when there is one, otherwise a new one for the occurrence. */
  function ScanValue(tfOrig: Dict<Span, Entity>, text: string, t: string, l: Label, p: nat): (v: Entity)
    ensures Has(tfOrig, (p, p + |t|)) ==> Get(tfOrig, (p, p + |t|)) == Some(v)
    ensures !Has(tfOrig, (p, p + |t|)) ==> v == Entity(l, p, p + |t|, Slice(text, p, p + |t|), TaskflowGlobalScan)
  {
    if Has(tfOrig, (p, p + |t|)) then Get(tfOrig, (p, p + |t|)).value
    else Entity(l, p, p + |t|, Slice(text, p, p + |t|), TaskflowGlobalScan)
  }

  lemma ScanLiteralNone(d: Dict<Span, Entity>, tfOrig: Dict<Span, Entity>, text: string, t: string, l: Label)
    ensures ScanLiteral(d, tfOrig, text, t, l, []) == d
  {
  }

  /** The inner loop's last step, for one match `p`: a span already present
      is left alone; otherwise the semantic entity with that span, or a new
      one for the occurrence, is added. */
  lemma ScanLiteralLast(d: Dict<Span, Entity>, tfOrig: Dict<Span, Entity>, text: string, t: string, l: Label, ps: seq<nat>)
    requires ps != []
    ensures var d' := ScanLiteral(d, tfOrig, text, t, l, ps[..|ps| - 1]);
      var p := ps[|ps| - 1];
      var s: Span := (p, p + |t|);
      ScanLiteral(d, tfOrig, text, t, l, ps) == if Has(d', s) then d' else Put(d', s, ScanValue(tfOrig, text, t, l, p))
  {
  }

  /** The outer loop over `tf_text_to_label.items()`. */
  function Rescan(d: Dict<Span, Entity>, tfOrig: Dict<Span, Entity>, text: string, cc: CharTests, pairs: Dict<string, Label>)
    : Dict<Span, Entity>
  {
    if pairs == [] then d
    else
      var pr := pairs[|pairs| - 1];
      ScanLiteral(Rescan(d, tfOrig, text, cc, pairs[..|pairs| - 1]), tfOrig, text, pr.key, pr.value, Occurrences(cc, text, pr.key, 0))
  }

  /** The outer loop's last step scans for the last literal. */
  lemma RescanLast(d: Dict<Span, Entity>, tfOrig: Dict<Span, Entity>, text: string, cc: CharTests, pairs: Dict<string, Label>)
    requires pairs != []
    ensures var pr := pairs[|pairs| - 1];
      Rescan(d, tfOrig, text, cc, pairs)
        == ScanLiteral(Rescan(d, tfOrig, text, cc, pairs[..|pairs| - 1]), tfOrig, text, pr.key, pr.value, Occurrences(cc, text, pr.key, 0))
  {
  }

  /** The final loop: semantic spans the rescan did not reach. */
  function AddMissing(d: Dict<Span, Entity>, items: Dict<Span, Entity>): Dict<Span, Entity>
  {
    if items == [] then d
    else
      var d' := AddMissing(d, items[..|items| - 1]);
      var it := items[|items| - 1];
      if Has(d', it.key) then d' else Put(d', it.key, it.value)
  }

  /** `final_ents_map` at the end of reconciliation. */
  function FinalMap(text: string, regexEnts: seq<Entity>, tfEnts: seq<Entity>, cc: CharTests): Dict<Span, Entity>
  {
    var tfOrig := PutAll([], tfEnts);
    AddMissing(Rescan(PutAll([], regexEnts), tfOrig, text, cc, FirstLabels(tfEnts)), tfOrig)
  }

  /** `global_ents = sorted(final_ents_map.values(), key=lambda x: x["start"])`. */
  function Reconciled(text: string, regexEnts: seq<Entity>, tfEnts: seq<Entity>, cc: CharTests): seq<Entity>
  {
    SortBy(Values(FinalMap(text, regexEnts, tfEnts, cc)), StartKey)
  }

  // ---- invariants of the dictionary while it is being filled ----

  /** Every present key keeps its value in `d'`. */
  ghost predicate Grows(d: Dict<Span, Entity>, d': Dict<Span, Entity>)
  {
    forall k :: Has(d, k) ==> Get(d', k) == Get(d, k)
  }

  /** Each value sits under its own span. */
  ghost predicate Coherent(d: Dict<Span, Entity>)
  {
    forall k :: Has(d, k) ==> SpanOf(Get(d, k).value) == k
  }

  /** A span the regex map lacks but the semantic map has carries the
      semantic map's entity. */
  ghost predicate TfAgrees(d: Dict<Span, Entity>, base: Dict<Span, Entity>, tfOrig: Dict<Span, Entity>)
  {
    forall k :: Has(d, k) && !Has(base, k) && Has(tfOrig, k) ==> Get(d, k) == Get(tfOrig, k)
  }

  /** An entity the rescan creates: a case-insensitive occurrence of one of
      the literals, labelled with that literal's first label. */
  ghost predicate ScannedFrom(e: Entity, pairs: Dict<string, Label>, text: string, cc: CharTests)
  {
    && e.how == TaskflowGlobalScan
    && e.start <= e.end <= |text| && e.text == text[e.start..e.end]
    && exists j :: 0 <= j < |pairs| && e.category == pairs[j].value && MatchAt(cc, text, pairs[j].key, e.start)
                   && e.end == e.start + |pairs[j].key|
  }

  /** Where every value comes from. */
  ghost predicate Sourced(d: Dict<Span, Entity>, regexEnts: seq<Entity>, tfEnts: seq<Entity>, pairs: Dict<string, Label>, text: string, cc: CharTests)
  {
    forall k :: Has(d, k) ==>
      var e := Get(d, k).value;
      e in regexEnts || e in tfEnts || ScannedFrom(e, pairs, text, cc)
  }

  lemma PutAllCoherent(d: Dict<Span, Entity>, es: seq<Entity>)
    requires Coherent(d)
    ensures Coherent(PutAll(d, es))
  {
    forall k | Has(PutAll(d, es), k)
      ensures SpanOf(Get(PutAll(d, es), k).value) == k
    {
      PutAllGet(d, es, k);
    }
  }

  // ---- the rescan ----

  lemma {:induction false} ScanGrows(d: Dict<Span, Entity>, tfOrig: Dict<Span, Entity>, text: string, t: string, l: Label, ps: seq<nat>)
    ensures Grows(d, ScanLiteral(d, tfOrig, text, t, l, ps))
    decreases |ps|
  {
    hide ScanLiteral, Put, Get, ScanValue;
    if ps == [] {
      ScanLiteralNone(d, tfOrig, text, t, l);
    } else {
      var d' := ScanLiteral(d, tfOrig, text, t, l, ps[..|ps| - 1]);
      ScanGrows(d, tfOrig, text, t, l, ps[..|ps| - 1]);
      var p := ps[|ps| - 1];
      var s: Span := (p, p + |t|);
      var v := ScanValue(tfOrig, text, t, l, p);
      ScanLiteralLast(d, tfOrig, text, t, l, ps);
      if !Has(d', s) {
        forall k | Has(d, k)
          ensures Get(ScanLiteral(d, tfOrig, text, t, l, ps), k) == Get(d, k)
        {
          PutGet(d', s, v, k);
        }
      }
    }
  }

  /** The rescan keeps keys unique, values under their own spans, and semantic
      spans carrying the semantic entity. */
  lemma {:induction false} ScanKeeps(d: Dict<Span, Entity>, base: Dict<Span, Entity>, tfOrig: Dict<Span, Entity>, text: string, t: string, l: Label, ps: seq<nat>)
    requires Unique(d) && Coherent(d) && Coherent(tfOrig) && TfAgrees(d, base, tfOrig)
    ensures var r := ScanLiteral(d, tfOrig, text, t, l, ps);
      Unique(r) && Coherent(r) && TfAgrees(r, base, tfOrig)
    decreases |ps|
  {
    hide ScanLiteral, Put, Get, ScanValue;
    if ps == [] {
      ScanLiteralNone(d, tfOrig, text, t, l);
    } else {
      var d' := ScanLiteral(d, tfOrig, text, t, l, ps[..|ps| - 1]);
      ScanKeeps(d, base, tfOrig, text, t, l, ps[..|ps| - 1]);
      var p := ps[|ps| - 1];
      var s: Span := (p, p + |t|);
      var v := ScanValue(tfOrig, text, t, l, p);
      ScanLiteralLast(d, tfOrig, text, t, l, ps);
      if !Has(d', s) {
        assert SpanOf(v) == s;
        PutUnique(d', s, v);
        var r := Put(d', s, v);
        forall k | Has(r, k)
          ensures SpanOf(Get(r, k).value) == k
          ensures !Has(base, k) && Has(tfOrig, k) ==> Get(r, k) == Get(tfOrig, k)
        {
          PutGet(d', s, v, k);
        }
      }
    }
  }

  /** Every value the rescan adds is a semantic entity or a scanned
      occurrence of the literal. */
  lemma {:induction false} ScanSourced(d: Dict<Span, Entity>, tfOrig: Dict<Span, Entity>, text: string, cc: CharTests,
                                       pairs: Dict<string, Label>, j: nat, ps: seq<nat>,
                                       regexEnts: seq<Entity>, tfEnts: seq<Entity>)
    requires j < |pairs|
    requires forall p :: p in ps ==> MatchAt(cc, text, pairs[j].key, p)
    requires forall k :: Has(tfOrig, k) ==> Get(tfOrig, k).value in tfEnts
    requires Sourced(d, regexEnts, tfEnts, pairs, text, cc)
    ensures Sourced(ScanLiteral(d, tfOrig, text, pairs[j].key, pairs[j].value, ps), regexEnts, tfEnts, pairs, text, cc)
    decreases |ps|
  {
    hide ScanLiteral, Put, Get, ScanValue, MatchAt, ScannedFrom;
    var t, l := pairs[j].key, pairs[j].value;
    if ps == [] {
      ScanLiteralNone(d, tfOrig, text, t, l);
    } else {
      var init := ps[..|ps| - 1];
      var d' := ScanLiteral(d, tfOrig, text, t, l, init);
      var p := ps[|ps| - 1];
      assert forall q :: q in init ==> q in ps;
      ScanSourced(d, tfOrig, text, cc, pairs, j, init, regexEnts, tfEnts);
      var s: Span := (p, p + |t|);
      var v := ScanValue(tfOrig, text, t, l, p);
      ScanLiteralLast(d, tfOrig, text, t, l, ps);
      if !Has(d', s) {
        ScanValueSourced(tfOrig, text, cc, pairs, j, p, tfEnts);
        forall k | Has(Put(d', s, v), k)
          ensures var e := Get(Put(d', s, v), k).value; e in regexEnts || e in tfEnts || ScannedFrom(e, pairs, text, cc)
        {
          PutGet(d', s, v, k);
        }
      }
    }
  }

  /** The value the rescan stores for a match: the semantic entity with that
      span, or a new occurrence of the literal. */
  lemma ScanValueSourced(tfOrig: Dict<Span, Entity>, text: string, cc: CharTests, pairs: Dict<string, Label>, j: nat, p: nat, tfEnts: seq<Entity>)
    requires j < |pairs| && MatchAt(cc, text, pairs[j].key, p)
    requires forall k :: Has(tfOrig, k) ==> Get(tfOrig, k).value in tfEnts
    ensures var v := ScanValue(tfOrig, text, pairs[j].key, pairs[j].value, p);
      v in tfEnts || ScannedFrom(v, pairs, text, cc)
  {
  }

  /** Assigning a new key keeps every other one. */
  lemma PutGrows(d: Dict<Span, Entity>, k: Span, v: Entity)
    requires !Has(d, k)
    ensures Grows(d, Put(d, k, v)) && Has(Put(d, k, v), k)
  {
    forall k' | Has(d, k')
      ensures Get(Put(d, k, v), k') == Get(d, k')
    {
      PutGet(d, k, v, k');
    }
    PutGet(d, k, v, k);
  }

  /** Every occurrence of the literal ends up as a key. */
  lemma {:induction false} ScanCovers(d: Dict<Span, Entity>, tfOrig: Dict<Span, Entity>, text: string, t: string, l: Label, ps: seq<nat>)
    ensures forall p :: p in ps ==> Has(ScanLiteral(d, tfOrig, text, t, l, ps), (p, p + |t|))
    decreases |ps|
  {
    hide ScanLiteral, Put, Get, ScanValue, Grows;
    if ps != [] {
      var init := ps[..|ps| - 1];
      var d' := ScanLiteral(d, tfOrig, text, t, l, init);
      var r := ScanLiteral(d, tfOrig, text, t, l, ps);
      ScanCovers(d, tfOrig, text, t, l, init);
      var p := ps[|ps| - 1];
      var s: Span := (p, p + |t|);
      ScanLiteralLast(d, tfOrig, text, t, l, ps);
      if !Has(d', s) {
        PutGrows(d', s, ScanValue(tfOrig, text, t, l, p));
      }
      assert Has(r, s);
      forall q | q in ps
        ensures Has(r, (q, q + |t|))
      {
        if q != p {
          assert q in init by {
            assert ps == init + [p];
          }
          if !Has(d', s) {
            GrowsHas(d', r, (q, q + |t|));
          }
        }
      }
    }
  }

  lemma GrowsHas(d: Dict<Span, Entity>, d': Dict<Span, Entity>, k: Span)
    requires Grows(d, d') && Has(d, k)
    ensures Has(d', k)
  {
  }

  lemma GrowsTrans(a: Dict<Span, Entity>, b: Dict<Span, Entity>, c: Dict<Span, Entity>)
    requires Grows(a, b) && Grows(b, c)
    ensures Grows(a, c)
  {
  }

  lemma {:induction false} RescanGrows(d: Dict<Span, Entity>, tfOrig: Dict<Span, Entity>, text: string, cc: CharTests, pairs: Dict<string, Label>)
    ensures Grows(d, Rescan(d, tfOrig, text, cc, pairs))
    decreases |pairs|
  {
    if pairs != [] {
      var pr := pairs[|pairs| - 1];
      var mid := Rescan(d, tfOrig, text, cc, pairs[..|pairs| - 1]);
      RescanGrows(d, tfOrig, text, cc, pairs[..|pairs| - 1]);
      ScanGrows(mid, tfOrig, text, pr.key, pr.value, Occurrences(cc, text, pr.key, 0));
      GrowsTrans(d, mid, Rescan(d, tfOrig, text, cc, pairs));
    }
  }

  lemma {:induction false} RescanKeeps(d: Dict<Span, Entity>, base: Dict<Span, Entity>, tfOrig: Dict<Span, Entity>, text: string, cc: CharTests, pairs: Dict<string, Label>)
    requires Unique(d) && Coherent(d) && Coherent(tfOrig) && TfAgrees(d, base, tfOrig)
    ensures var r := Rescan(d, tfOrig, text, cc, pairs);
      Unique(r) && Coherent(r) && TfAgrees(r, base, tfOrig)
    decreases |pairs|
  {
    if pairs != [] {
      var pr := pairs[|pairs| - 1];
      RescanKeeps(d, base, tfOrig, text, cc, pairs[..|pairs| - 1]);
      ScanKeeps(Rescan(d, tfOrig, text, cc, pairs[..|pairs| - 1]), base, tfOrig, text, pr.key, pr.value, Occurrences(cc, text, pr.key, 0));
    }
  }

  lemma {:induction false} RescanSourced(d: Dict<Span, Entity>, tfOrig: Dict<Span, Entity>, text: string, cc: CharTests,
                                         pairs: Dict<string, Label>, n: nat, regexEnts: seq<Entity>, tfEnts: seq<Entity>)
    requires n <= |pairs|
    requires forall k :: Has(tfOrig, k) ==> Get(tfOrig, k).value in tfEnts
    requires Sourced(d, regexEnts, tfEnts, pairs, text, cc)
    ensures Sourced(Rescan(d, tfOrig, text, cc, pairs[..n]), regexEnts, tfEnts, pairs, text, cc)
    decreases n
  {
    if n > 0 {
      var pr := pairs[n - 1];
      assert pairs[..n][..n - 1] == pairs[..n - 1];
      RescanSourced(d, tfOrig, text, cc, pairs, n - 1, regexEnts, tfEnts);
      OccurrencesSound(cc, text, pr.key, 0);
      ScanSourced(Rescan(d, tfOrig, text, cc, pairs[..n - 1]), tfOrig, text, cc, pairs, n - 1,
                  Occurrences(cc, text, pr.key, 0), regexEnts, tfEnts);
    }
  }

  /** Every occurrence in `text` of every literal of `pairs` is a key of `d`. */
  ghost predicate Covers(d: Dict<Span, Entity>, text: string, cc: CharTests, pairs: Dict<string, Label>)
  {
    forall j, p :: 0 <= j < |pairs| && p in Occurrences(cc, text, pairs[j].key, 0) ==> Has(d, (p, p + |pairs[j].key|))
  }

  /** Every occurrence of every literal ends up as a key. */
  lemma {:induction false} RescanCovers(d: Dict<Span, Entity>, tfOrig: Dict<Span, Entity>, text: string, cc: CharTests, pairs: Dict<string, Label>)
    ensures Covers(Rescan(d, tfOrig, text, cc, pairs), text, cc, pairs)
    decreases |pairs|
  {
    hide Rescan, ScanLiteral, Occurrences, Get, MatchAt, Grows, Has, Covers;
    if pairs == [] {
      CoversNone(Rescan(d, tfOrig, text, cc, pairs), text, cc);
    } else {
      var init := pairs[..|pairs| - 1];
      var pr := pairs[|pairs| - 1];
      var mid := Rescan(d, tfOrig, text, cc, init);
      var r := Rescan(d, tfOrig, text, cc, pairs);
      RescanLast(d, tfOrig, text, cc, pairs);
      RescanCovers(d, tfOrig, text, cc, init);
      ScanGrows(mid, tfOrig, text, pr.key, pr.value, Occurrences(cc, text, pr.key, 0));
      ScanCovers(mid, tfOrig, text, pr.key, pr.value, Occurrences(cc, text, pr.key, 0));
      CoversStep(mid, r, text, cc, pairs, pr.key, Occurrences(cc, text, pr.key, 0));
    }
  }

  lemma CoversNone(d: Dict<Span, Entity>, text: string, cc: CharTests)
    ensures Covers(d, text, cc, [])
  {
  }

  /** Coverage of the first literals survives the last scan, which covers the
      last literal. */
  lemma CoversStep(mid: Dict<Span, Entity>, r: Dict<Span, Entity>, text: string, cc: CharTests, pairs: Dict<string, Label>, t: string, ps: seq<nat>)
    requires pairs != [] && t == pairs[|pairs| - 1].key && ps == Occurrences(cc, text, t, 0)
    requires Covers(mid, text, cc, pairs[..|pairs| - 1])
    requires Grows(mid, r)
    requires forall p :: p in ps ==> Has(r, (p, p + |t|))
    ensures Covers(r, text, cc, pairs)
  {
    hide Occurrences, Grows, Has;
    var init := pairs[..|pairs| - 1];
    forall j, p | 0 <= j < |pairs| && p in Occurrences(cc, text, pairs[j].key, 0)
      ensures Has(r, (p, p + |pairs[j].key|))
    {
      if j < |pairs| - 1 {
        assert init[j] == pairs[j];
        assert Has(mid, (p, p + |init[j].key|));
        GrowsHas(mid, r, (p, p + |pairs[j].key|));
      } else {
        assert p in ps;
      }
    }
  }

  // ---- the final loop ----

  lemma {:induction false} AddMissingGrows(d: Dict<Span, Entity>, items: Dict<Span, Entity>)
    ensures Grows(d, AddMissing(d, items))
    decreases |items|
  {
    if items != [] {
      var d' := AddMissing(d, items[..|items| - 1]);
      var it := items[|items| - 1];
      AddMissingGrows(d, items[..|items| - 1]);
      if !Has(d', it.key) {
        forall k | Has(d, k)
          ensures Get(AddMissing(d, items), k) == Get(d, k)
        {
          PutGet(d', it.key, it.value, k);
        }
      }
    }
  }

  /** The final loop adds every semantic span, with the semantic entity, and
      keeps the other invariants. */
  lemma {:induction false} AddMissingKeeps(d: Dict<Span, Entity>, base: Dict<Span, Entity>, tfOrig: Dict<Span, Entity>, n: nat)
    requires n <= |tfOrig|
    requires Unique(tfOrig) && Unique(d) && Coherent(d) && Coherent(tfOrig) && TfAgrees(d, base, tfOrig)
    ensures var r := AddMissing(d, tfOrig[..n]);
      && Unique(r) && Coherent(r) && TfAgrees(r, base, tfOrig)
      && forall i :: 0 <= i < n ==> Has(r, tfOrig[i].key)
    decreases n
  {
    if n > 0 {
      var items := tfOrig[..n];
      assert items[..n - 1] == tfOrig[..n - 1];
      var d' := AddMissing(d, tfOrig[..n - 1]);
      AddMissingKeeps(d, base, tfOrig, n - 1);
      var it := tfOrig[n - 1];
      GetEntry(tfOrig, n - 1);
      assert AddMissing(d, items) == if Has(d', it.key) then d' else Put(d', it.key, it.value);
      hide AddMissing, Put;
      if !Has(d', it.key) {
        PutUnique(d', it.key, it.value);
        var r := Put(d', it.key, it.value);
        forall k | Has(r, k)
          ensures SpanOf(Get(r, k).value) == k
          ensures !Has(base, k) && Has(tfOrig, k) ==> Get(r, k) == Get(tfOrig, k)
        {
          PutGet(d', it.key, it.value, k);
        }
        forall i | 0 <= i < n
          ensures Has(r, tfOrig[i].key)
        {
          PutGet(d', it.key, it.value, tfOrig[i].key);
        }
      }
    }
  }

  lemma {:induction false} AddMissingSourced(d: Dict<Span, Entity>, items: Dict<Span, Entity>, regexEnts: seq<Entity>, tfEnts: seq<Entity>,
                                             pairs: Dict<string, Label>, text: string, cc: CharTests)
    requires forall i :: 0 <= i < |items| ==> items[i].value in tfEnts
    requires Sourced(d, regexEnts, tfEnts, pairs, text, cc)
    ensures Sourced(AddMissing(d, items), regexEnts, tfEnts, pairs, text, cc)
    decreases |items|
  {
    if items != [] {
      var d' := AddMissing(d, items[..|items| - 1]);
      var it := items[|items| - 1];
      AddMissingSourced(d, items[..|items| - 1], regexEnts, tfEnts, pairs, text, cc);
      if !Has(d', it.key) {
        forall k | Has(Put(d', it.key, it.value), k)
          ensures var e := Get(Put(d', it.key, it.value), k).value; e in regexEnts || e in tfEnts || ScannedFrom(e, pairs, text, cc)
        {
          PutGet(d', it.key, it.value, k);
        }
      }
    }
  }

  // ---- the whole reconciliation ----

  /** The dictionary built from a list looks each span up to the last entity
      with that span. */
  lemma PutAllFresh(es: seq<Entity>)
    ensures Unique(PutAll([], es)) && Coherent(PutAll([], es))
    ensures forall s :: Get(PutAll([], es), s) == LastWithSpan(es, s)
  {
    PutAllUnique([], es);
    PutAllCoherent([], es);
    forall s
      ensures Get(PutAll([], es), s) == LastWithSpan(es, s)
    {
      PutAllGet([], es, s);
    }
  }

  /** What the final dictionary holds, span by span. */
  lemma FinalMapFacts(text: string, regexEnts: seq<Entity>, tfEnts: seq<Entity>, cc: CharTests)
    ensures var m := FinalMap(text, regexEnts, tfEnts, cc);
      && Unique(m) && Coherent(m)
      && Sourced(m, regexEnts, tfEnts, FirstLabels(tfEnts), text, cc)
      && (forall s :: LastWithSpan(regexEnts, s).Some? ==> Get(m, s) == LastWithSpan(regexEnts, s))
      && (forall s :: LastWithSpan(regexEnts, s).None? && LastWithSpan(tfEnts, s).Some? ==> Get(m, s) == LastWithSpan(tfEnts, s))
      && (forall j, p :: 0 <= j < |FirstLabels(tfEnts)| && p in Occurrences(cc, text, FirstLabels(tfEnts)[j].key, 0) ==>
            Has(m, (p, p + |FirstLabels(tfEnts)[j].key|)))
  {
    var pairs := FirstLabels(tfEnts);
    var tfOrig := PutAll([], tfEnts);
    var base := PutAll([], regexEnts);
    var mid := Rescan(base, tfOrig, text, cc, pairs);
    var m := FinalMap(text, regexEnts, tfEnts, cc);
    assert m == AddMissing(mid, tfOrig);
    hide FinalMap, AddMissing, Rescan, PutAll;
    PutAllFresh(tfEnts);
    PutAllFresh(regexEnts);
    assert Sourced(base, regexEnts, tfEnts, pairs, text, cc);
    RescanGrows(base, tfOrig, text, cc, pairs);
    RescanKeeps(base, base, tfOrig, text, cc, pairs);
    assert pairs[..|pairs|] == pairs;
    RescanSourced(base, tfOrig, text, cc, pairs, |pairs|, regexEnts, tfEnts);
    RescanCovers(base, tfOrig, text, cc, pairs);
    assert tfOrig[..|tfOrig|] == tfOrig;
    AddMissingGrows(mid, tfOrig);
    AddMissingKeeps(mid, base, tfOrig, |tfOrig|);
    forall i | 0 <= i < |tfOrig|
      ensures tfOrig[i].value in tfEnts
    {
      GetEntry(tfOrig, i);
    }
    AddMissingSourced(mid, tfOrig, regexEnts, tfEnts, pairs, text, cc);
    GrowsTrans(base, mid, m);
    forall s | LastWithSpan(regexEnts, s).None? && LastWithSpan(tfEnts, s).Some?
      ensures Get(m, s) == LastWithSpan(tfEnts, s)
    {
      HasIndex(tfOrig, s);
      var i :| 0 <= i < |tfOrig| && tfOrig[i].key == s;
    }
  }

  /** The final dictionary has one entry per span, each under its own span. */
  lemma FinalMapShape(text: string, regexEnts: seq<Entity>, tfEnts: seq<Entity>, cc: CharTests)
    ensures Unique(FinalMap(text, regexEnts, tfEnts, cc)) && Coherent(FinalMap(text, regexEnts, tfEnts, cc))
  {
    FinalMapFacts(text, regexEnts, tfEnts, cc);
  }

  lemma ValuesHas<K, V>(m: Dict<K, V>, k: K)
    requires Unique(m) && Has(m, k)
    ensures Get(m, k).value in Values(m)
  {
    GetSome(m, k);
  }

  lemma HasValues<K, V>(m: Dict<K, V>, x: V)
    requires Unique(m) && x in Values(m)
    ensures exists i :: 0 <= i < |m| && Get(m, m[i].key) == Some(x)
  {
    var i :| 0 <= i < |m| && Values(m)[i] == x;
    GetEntry(m, i);
  }

  /** The result is sorted by start and holds exactly the dictionary's
      values. */
  lemma ReconciledSorted(text: string, regexEnts: seq<Entity>, tfEnts: seq<Entity>, cc: CharTests)
    ensures var r := Reconciled(text, regexEnts, tfEnts, cc);
      SortedBy(r, StartKey) && multiset(r) == multiset(Values(FinalMap(text, regexEnts, tfEnts, cc)))
  {
    SortByProperties(Values(FinalMap(text, regexEnts, tfEnts, cc)), StartKey);
  }

  /** Membership in the result is membership among the dictionary's values. */
  lemma ReconciledMembers(text: string, regexEnts: seq<Entity>, tfEnts: seq<Entity>, cc: CharTests, x: Entity)
    ensures x in Reconciled(text, regexEnts, tfEnts, cc) <==> x in Values(FinalMap(text, regexEnts, tfEnts, cc))
  {
    ReconciledSorted(text, regexEnts, tfEnts, cc);
    assert x in Reconciled(text, regexEnts, tfEnts, cc) <==> x in multiset(Reconciled(text, regexEnts, tfEnts, cc));
  }

  /** No two different entities of the result share a span. */
  lemma ReconciledSpansDistinct(text: string, regexEnts: seq<Entity>, tfEnts: seq<Entity>, cc: CharTests, x: Entity, y: Entity)
    requires x in Reconciled(text, regexEnts, tfEnts, cc) && y in Reconciled(text, regexEnts, tfEnts, cc)
    requires SpanOf(x) == SpanOf(y)
    ensures x == y
  {
    var m := FinalMap(text, regexEnts, tfEnts, cc);
    hide Reconciled, FinalMap;
    FinalMapShape(text, regexEnts, tfEnts, cc);
    ReconciledMembers(text, regexEnts, tfEnts, cc, x);
    ReconciledMembers(text, regexEnts, tfEnts, cc, y);
    HasValues(m, x);
    HasValues(m, y);
    var i :| 0 <= i < |m| && Get(m, m[i].key) == Some(x);
    var j :| 0 <= j < |m| && Get(m, m[j].key) == Some(y);
    assert SpanOf(x) == m[i].key && SpanOf(y) == m[j].key;
  }

  /** Every entity of the result is a pattern entity, a semantic entity, or a
      case-insensitive occurrence of a semantic literal carrying that
      literal's first label. */
  lemma ReconciledSourced(text: string, regexEnts: seq<Entity>, tfEnts: seq<Entity>, cc: CharTests, x: Entity)
    requires x in Reconciled(text, regexEnts, tfEnts, cc)
    ensures x in regexEnts || x in tfEnts || ScannedFrom(x, FirstLabels(tfEnts), text, cc)
  {
    var m := FinalMap(text, regexEnts, tfEnts, cc);
    FinalMapFacts(text, regexEnts, tfEnts, cc);
    ReconciledMembers(text, regexEnts, tfEnts, cc, x);
    HasValues(m, x);
    var i :| 0 <= i < |m| && Get(m, m[i].key) == Some(x);
  }

  /** Pattern entities win their span: the last one at each span is in the
      result. */
  lemma ReconciledKeepsRegex(text: string, regexEnts: seq<Entity>, tfEnts: seq<Entity>, cc: CharTests, e: Entity)
    requires e in regexEnts
    ensures LastWithSpan(regexEnts, SpanOf(e)).Some?
    ensures LastWithSpan(regexEnts, SpanOf(e)).value in Reconciled(text, regexEnts, tfEnts, cc)
  {
    var m := FinalMap(text, regexEnts, tfEnts, cc);
    FinalMapFacts(text, regexEnts, tfEnts, cc);
    ValuesHas(m, SpanOf(e));
    ReconciledMembers(text, regexEnts, tfEnts, cc, LastWithSpan(regexEnts, SpanOf(e)).value);
  }

  /** A semantic entity's span is always in the result, held by the last
      semantic entity with that span unless a pattern entity holds it. */
  lemma ReconciledKeepsTaskflow(text: string, regexEnts: seq<Entity>, tfEnts: seq<Entity>, cc: CharTests, e: Entity)
    requires e in tfEnts
    ensures LastWithSpan(tfEnts, SpanOf(e)).Some?
    ensures LastWithSpan(regexEnts, SpanOf(e)).None? ==>
              LastWithSpan(tfEnts, SpanOf(e)).value in Reconciled(text, regexEnts, tfEnts, cc)
  {
    if LastWithSpan(regexEnts, SpanOf(e)).None? {
      var m := FinalMap(text, regexEnts, tfEnts, cc);
      FinalMapFacts(text, regexEnts, tfEnts, cc);
      ValuesHas(m, SpanOf(e));
      ReconciledMembers(text, regexEnts, tfEnts, cc, LastWithSpan(tfEnts, SpanOf(e)).value);
    }
  }

  /** Every case-insensitive occurrence of every semantic literal is a span of
      the result. */
  lemma ReconciledCovers(text: string, regexEnts: seq<Entity>, tfEnts: seq<Entity>, cc: CharTests, j: nat, p: nat)
    requires j < |FirstLabels(tfEnts)| && p in Occurrences(cc, text, FirstLabels(tfEnts)[j].key, 0)
    ensures exists x :: x in Reconciled(text, regexEnts, tfEnts, cc) && SpanOf(x) == (p, p + |FirstLabels(tfEnts)[j].key|)
  {
    var m := FinalMap(text, regexEnts, tfEnts, cc);
    var s: Span := (p, p + |FirstLabels(tfEnts)[j].key|);
    FinalMapFacts(text, regexEnts, tfEnts, cc);
    ValuesHas(m, s);
    ReconciledMembers(text, regexEnts, tfEnts, cc, Get(m, s).value);
  }
}
