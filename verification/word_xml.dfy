/** The text layer of `word/document.xml`: the `w:t` elements in document
    order, each with its text and the tail that follows it. Extraction
    flattens them into one text with a range per non-empty piece; patching
    splices edits back into the pieces they reach. */
module WordXml {
  import opened Seqs
  import opened Replacements

  /** One `w:t` element: its `.text` and `.tail`, a missing one read as "". */
  datatype TextElem = TextElem(text: string, tail: string)

  /** One entry of the node mapping: the range `[start, end)` of the flattened
      text held by element `elem`, in its text (`isText`) or its tail. */
  datatype Fragment = Fragment(start: nat, end: nat, elem: nat, text: string, isText: bool)

  /** The flattened text and the node mapping. */
  datatype Extraction = Extraction(fullText: string, mapping: seq<Fragment>)

  /** The document's text: each element's text followed by its tail. */
  function AllText(es: seq<TextElem>): string
  {
    if es == [] then "" else AllText(es[..|es| - 1]) + es[|es| - 1].text + es[|es| - 1].tail
  }

  /** The element field a fragment stands for. */
  function Field(es: seq<TextElem>, f: Fragment): string
  {
    if f.elem < |es| then (if f.isText then es[f.elem].text else es[f.elem].tail) else ""
  }

  predicate SameField(f: Fragment, g: Fragment)
  {
    f.elem == g.elem && f.isText == g.isText
  }

  /** Fragment `a` comes before `b` in document order. */
  predicate Before(a: Fragment, b: Fragment)
  {
    a.elem < b.elem || (a.elem == b.elem && a.isText && !b.isText)
  }

  // ---- extraction ----

  /** Appends a piece when it is non-empty. */
  function AddPiece(x: Extraction, elem: nat, piece: string, isText: bool): Extraction
  {
    if piece == "" then x
    else Extraction(x.fullText + piece, x.mapping + [Fragment(|x.fullText|, |x.fullText| + |piece|, elem, piece, isText)])
  }

  /** `_extract_text_from_xml`, over the `w:t` elements in document order. */
  function Extract(es: seq<TextElem>): Extraction
    decreases |es|
  {
    if es == [] then Extraction("", [])
    else
      var i := |es| - 1;
      AddPiece(AddPiece(Extract(es[..i]), i, es[i].text, true), i, es[i].tail, false)
  }

  /** The fragments lie end to end, each non-empty, from 0 up to `n`. */
  predicate Tiled(m: seq<Fragment>, n: nat)
    decreases |m|
  {
    if m == [] then n == 0
    else m[|m| - 1].start < m[|m| - 1].end == n && Tiled(m[..|m| - 1], m[|m| - 1].start)
  }

  /** Each fragment's text is the flattened text over its range. */
  ghost predicate SlicesMatch(x: Extraction)
  {
    forall k :: 0 <= k < |x.mapping| ==>
      x.mapping[k].start <= x.mapping[k].end <= |x.fullText| &&
      x.fullText[x.mapping[k].start..x.mapping[k].end] == x.mapping[k].text
  }

  /** Each fragment names a field of an element and holds that field's text,
      and the fragments follow document order. */
  ghost predicate FieldsMatch(es: seq<TextElem>, m: seq<Fragment>)
  {
    && (forall k :: 0 <= k < |m| ==> m[k].elem < |es| && Field(es, m[k]) == m[k].text)
    && (forall a, b :: 0 <= a < b < |m| ==> Before(m[a], m[b]))
  }

  lemma AddPieceLayout(x: Extraction, elem: nat, piece: string, isText: bool)
    requires Tiled(x.mapping, |x.fullText|) && SlicesMatch(x)
    ensures Tiled(AddPiece(x, elem, piece, isText).mapping, |AddPiece(x, elem, piece, isText).fullText|)
    ensures SlicesMatch(AddPiece(x, elem, piece, isText))
  {
    if piece != "" {
      var y := AddPiece(x, elem, piece, isText);
      assert y.mapping[..|y.mapping| - 1] == x.mapping;
      forall k | 0 <= k < |y.mapping|
        ensures y.fullText[y.mapping[k].start..y.mapping[k].end] == y.mapping[k].text
      {
        if k < |x.mapping| {
          assert y.fullText[x.mapping[k].start..x.mapping[k].end] == x.fullText[x.mapping[k].start..x.mapping[k].end];
        } else {
          assert y.fullText[|x.fullText|..] == piece;
        }
      }
    }
  }

  /** The fragments tile the flattened text, which is the document's text,
      and each fragment's text is the flattened text over its range. */
  lemma {:induction false} ExtractLayout(es: seq<TextElem>)
    ensures Tiled(Extract(es).mapping, |Extract(es).fullText|)
    ensures SlicesMatch(Extract(es))
    ensures Extract(es).fullText == AllText(es)
    decreases |es|
  {
    if es != [] {
      var i := |es| - 1;
      var x0 := Extract(es[..i]);
      ExtractLayout(es[..i]);
      AddPieceLayout(x0, i, es[i].text, true);
      AddPieceLayout(AddPiece(x0, i, es[i].text, true), i, es[i].tail, false);
    }
  }

  /** The fragment `AddPiece` appends, if any. */
  function PieceFragments(x: Extraction, elem: nat, piece: string, isText: bool): (r: seq<Fragment>)
    ensures AddPiece(x, elem, piece, isText).mapping == x.mapping + r
    ensures piece == "" <==> r == []
    ensures forall k :: 0 <= k < |r| ==> r[k].elem == elem && r[k].text == piece && r[k].isText == isText
    ensures |r| <= 1
  {
    if piece == "" then [] else [Fragment(|x.fullText|, |x.fullText| + |piece|, elem, piece, isText)]
  }

  lemma ExtractUnfold(es: seq<TextElem>)
    requires es != []
    ensures var i := |es| - 1;
      Extract(es) == AddPiece(AddPiece(Extract(es[..i]), i, es[i].text, true), i, es[i].tail, false)
  {
  }

  /** One step of extraction: the fragments of all but the last element,
      then the last element's text fragment, when it has text, and its tail
      fragment, when it has a tail. */
  lemma ExtractStep(es: seq<TextElem>)
    requires es != []
    ensures var i := |es| - 1;
      var m0 := Extract(es[..i]).mapping;
      var m := Extract(es).mapping;
      && |m| == |m0| + (if es[i].text == "" then 0 else 1) + (if es[i].tail == "" then 0 else 1)
      && m[..|m0|] == m0
      && (forall k :: |m0| <= k < |m| ==> m[k].elem == i && Field(es, m[k]) == m[k].text)
      && (forall k :: |m0| <= k < |m| ==> (m[k].isText <==> k == |m0| && es[i].text != ""))
  {
    var i := |es| - 1;
    var x0 := Extract(es[..i]);
    var x1 := AddPiece(x0, i, es[i].text, true);
    var x2 := AddPiece(x1, i, es[i].tail, false);
    ExtractUnfold(es);
    hide Extract, AddPiece, PieceFragments;
    NewFragments(es, es[i], i, x0.mapping, PieceFragments(x0, i, es[i].text, true), PieceFragments(x1, i, es[i].tail, false), x2.mapping);
  }

  /** The fragments one element adds, laid after the earlier ones. */
  lemma NewFragments(es: seq<TextElem>, e: TextElem, i: nat, m0: seq<Fragment>, tx: seq<Fragment>, tl: seq<Fragment>, m: seq<Fragment>)
    requires i < |es| && es[i] == e
    requires m == m0 + tx + tl
    requires e.text == "" <==> tx == []
    requires e.tail == "" <==> tl == []
    requires forall k :: 0 <= k < |tx| ==> tx[k].elem == i && tx[k].text == e.text && tx[k].isText
    requires forall k :: 0 <= k < |tl| ==> tl[k].elem == i && tl[k].text == e.tail && !tl[k].isText
    requires |tx| <= 1 && |tl| <= 1
    ensures |m| == |m0| + (if e.text == "" then 0 else 1) + (if e.tail == "" then 0 else 1)
    ensures m[..|m0|] == m0
    ensures forall k :: |m0| <= k < |m| ==> m[k].elem == i && Field(es, m[k]) == m[k].text
    ensures forall k :: |m0| <= k < |m| ==> (m[k].isText <==> k == |m0| && e.text != "")
  {
    forall k | |m0| <= k < |m|
      ensures m[k].elem == i && Field(es, m[k]) == m[k].text
      ensures m[k].isText <==> k == |m0| && e.text != ""
    {
      IndexConcat3(m0, tx, tl, k);
    }
  }

  /** Each fragment holds the text of the element field it names, in
      document order: an element's text before its tail. */
  lemma {:induction false} ExtractFields(es: seq<TextElem>)
    ensures FieldsMatch(es, Extract(es).mapping)
    decreases |es|
  {
    if es != [] {
      var i := |es| - 1;
      var m0 := Extract(es[..i]).mapping;
      var m := Extract(es).mapping;
      ExtractFields(es[..i]);
      ExtractStep(es);
      hide Extract;
      forall k | 0 <= k < |m|
        ensures m[k].elem < |es| && Field(es, m[k]) == m[k].text
      {
        if k < |m0| {
          assert m[k] == m0[k];
          assert es[..i][m0[k].elem] == es[m0[k].elem];
        }
      }
      forall a, b | 0 <= a < b < |m|
        ensures Before(m[a], m[b])
      {
        if b < |m0| {
          assert m[a] == m0[a] && m[b] == m0[b];
        } else if a < |m0| {
          assert m[a] == m0[a];
        }
      }
    }
  }

  /** Every non-empty text and tail has its fragment. */
  lemma {:induction false} ExtractComplete(es: seq<TextElem>, i: nat)
    requires i < |es|
    ensures es[i].text != "" ==> exists k :: 0 <= k < |Extract(es).mapping| && Extract(es).mapping[k].elem == i && Extract(es).mapping[k].isText
    ensures es[i].tail != "" ==> exists k :: 0 <= k < |Extract(es).mapping| && Extract(es).mapping[k].elem == i && !Extract(es).mapping[k].isText
    decreases |es|
  {
    var n := |es| - 1;
    var m0 := Extract(es[..n]).mapping;
    var m := Extract(es).mapping;
    assert m[..|m0|] == m0;
    if i < n {
      ExtractComplete(es[..n], i);
      assert es[..n][i] == es[i];
      if es[i].text != "" {
        var k :| 0 <= k < |m0| && m0[k].elem == i && m0[k].isText;
        assert m[k] == m0[k];
      }
      if es[i].tail != "" {
        var k :| 0 <= k < |m0| && m0[k].elem == i && !m0[k].isText;
        assert m[k] == m0[k];
      }
    } else {
      if es[i].text != "" {
        assert m[|m0|].elem == i && m[|m0|].isText;
      }
      if es[i].tail != "" {
        assert m[|m| - 1].elem == i && !m[|m| - 1].isText;
      }
    }
  }

  /** A tail fragment comes right after its element's text fragment when the
      element has text. */
  lemma {:induction false} ExtractTailFollows(es: seq<TextElem>)
    ensures forall k :: 0 <= k < |Extract(es).mapping| && !Extract(es).mapping[k].isText &&
                        Extract(es).mapping[k].elem < |es| && es[Extract(es).mapping[k].elem].text != "" ==>
              0 < k && Extract(es).mapping[k - 1].elem == Extract(es).mapping[k].elem && Extract(es).mapping[k - 1].isText
    decreases |es|
  {
    if es != [] {
      var i := |es| - 1;
      var m0 := Extract(es[..i]).mapping;
      var m := Extract(es).mapping;
      ExtractTailFollows(es[..i]);
      ExtractFields(es[..i]);
      ExtractStep(es);
      hide Extract;
      forall k | 0 <= k < |m| && !m[k].isText && m[k].elem < |es| && es[m[k].elem].text != ""
        ensures 0 < k && m[k - 1].elem == m[k].elem && m[k - 1].isText
      {
        if k < |m0| {
          assert m[k] == m0[k] && m0[k].elem < i;
          assert es[..i][m0[k].elem] == es[m0[k].elem];
          assert m[k - 1] == m0[k - 1];
        } else {
          assert m[k].elem == i && k - 1 == |m0|;
        }
      }
    }
  }

  // ---- patching one fragment ----

  /** One step of the inner loop: an edit reaching the fragment's range is
      spliced in over `[local_start, local_end)`, both computed against the
      fragment's original text and applied to the current text. */
  function Splice(cur: string, f: Fragment, r: Rep): string
  {
    if r.start < f.end && r.end > f.start then
      var ls := Max(0, r.start - f.start);
      var le := Min(|f.text|, r.end - f.start);
      if ls < le then Slice(cur, 0, ls) + r.newText + Slice(cur, le, |cur|) else cur
    else cur
  }

  /** The inner loop over the edits, in the order given. */
  function PatchFragment(f: Fragment, reps: seq<Rep>): string
    decreases |reps|
  {
    if reps == [] then f.text else Splice(PatchFragment(f, reps[..|reps| - 1]), f, reps[|reps| - 1])
  }

  predicate Inside(r: Rep, f: Fragment)
  {
    f.start <= r.start && r.end <= f.end
  }

  predicate Outside(r: Rep, f: Fragment)
  {
    r.end <= f.start || r.start >= f.end
  }

  /** A fragment no edit reaches keeps its text. */
  lemma {:induction false} PatchUntouched(f: Fragment, reps: seq<Rep>)
    requires forall r :: r in reps ==> Outside(r, f)
    ensures PatchFragment(f, reps) == f.text
    decreases |reps|
  {
    if reps != [] {
      PatchUntouched(f, reps[..|reps| - 1]);
      assert reps[|reps| - 1] in reps;
    }
  }

  /** Splicing one length-keeping edit inside the fragment into a text of
      the fragment's length writes the edit's text over its span only. */
  lemma SpliceInside(cur: string, f: Fragment, r: Rep)
    requires f.start + |f.text| == f.end && |cur| == |f.text|
    requires Inside(r, f) && r.start <= r.end && |r.newText| == r.end - r.start
    ensures |Splice(cur, f, r)| == |cur|
    ensures forall p :: f.start <= p < f.end && Covers(r, p) ==> Splice(cur, f, r)[p - f.start] == r.newText[p - r.start]
    ensures forall p :: f.start <= p < f.end && !Covers(r, p) ==> Splice(cur, f, r)[p - f.start] == cur[p - f.start]
  {
    if r.start < r.end {
      var ls := r.start - f.start;
      var le := r.end - f.start;
      assert Splice(cur, f, r) == cur[..ls] + r.newText + cur[le..];
    }
  }

  /** Length-keeping edits, none overlapping another and each inside or
      outside the fragment, give the fragment its own length, each edit's
      text inside the edit and the original text elsewhere — in any order. */
  lemma {:induction false} PatchFragmentPointwise(f: Fragment, reps: seq<Rep>)
    requires f.start + |f.text| == f.end
    requires forall r :: r in reps ==> (Inside(r, f) || Outside(r, f)) && r.start <= r.end && |r.newText| == r.end - r.start
    requires forall x, y :: x in reps && y in reps && x != y ==> x.end <= y.start || y.end <= x.start
    ensures |PatchFragment(f, reps)| == |f.text|
    ensures forall r, p :: r in reps && Covers(r, p) && f.start <= p < f.end ==>
              PatchFragment(f, reps)[p - f.start] == r.newText[p - r.start]
    ensures forall p :: f.start <= p < f.end && Uncovered(reps, p) ==>
              PatchFragment(f, reps)[p - f.start] == f.text[p - f.start]
    decreases |reps|
  {
    if reps != [] {
      var init := reps[..|reps| - 1];
      var r := reps[|reps| - 1];
      assert forall x :: x in reps <==> x in init || x == r;
      PatchFragmentPointwise(f, init);
      var cur := PatchFragment(f, init);
      var out := PatchFragment(f, reps);
      assert out == Splice(cur, f, r);
      if Inside(r, f) {
        hide PatchFragment, Splice;
        SpliceInside(cur, f, r);
        forall x, p | x in reps && Covers(x, p) && f.start <= p < f.end
          ensures out[p - f.start] == x.newText[p - x.start]
        {
          if !Covers(r, p) {
            assert x in init;
          }
        }
        forall p | f.start <= p < f.end && Uncovered(reps, p)
          ensures out[p - f.start] == f.text[p - f.start]
        {
          assert !Covers(r, p) && Uncovered(init, p);
        }
      } else {
        assert out == cur;
        hide PatchFragment, Splice;
        forall p | f.start <= p < f.end && Uncovered(reps, p)
          ensures out[p - f.start] == f.text[p - f.start]
        {
          assert Uncovered(init, p);
        }
      }
    }
  }

  // ---- writing back ----

  /** `elem.text = ...` or `elem.tail = ...`. */
  function WriteField(es: seq<TextElem>, f: Fragment, t: string): (r: seq<TextElem>)
    ensures |r| == |es|
  {
    if f.elem < |es| then
      es[f.elem := if f.isText then es[f.elem].(text := t) else es[f.elem].(tail := t)]
    else es
  }

  /** The outer loop over the node mapping: each fragment's field receives the
      fragment's patched text. */
  function WriteAll(es: seq<TextElem>, m: seq<Fragment>, reps: seq<Rep>): (r: seq<TextElem>)
    ensures |r| == |es|
    decreases |m|
  {
    if m == [] then es
    else WriteField(WriteAll(es, m[..|m| - 1], reps), m[|m| - 1], PatchFragment(m[|m| - 1], reps))
  }

  function DescStart(r: Rep): int { -(r.start as int) }

  /** `_apply_replacements_to_xml` on the text layer: no edits leave the
      document as it is; otherwise the edits, sorted by descending start, are
      spliced into every fragment, and the result is kept only when the
      serialised document parses again (`parses`). */
  function ApplyReplacements(es: seq<TextElem>, reps: seq<Rep>, parses: bool): (r: seq<TextElem>)
    ensures |r| == |es|
    ensures reps == [] || !parses ==> r == es
  {
    if reps == [] then es
    else
      var patched := WriteAll(es, Extract(es).mapping, SortBy(reps, DescStart));
      if parses then patched else es
  }

  lemma WriteFieldAt(es: seq<TextElem>, f: Fragment, t: string, g: Fragment)
    requires g.elem < |es|
    ensures Field(WriteField(es, f, t), g) == if SameField(f, g) then t else Field(es, g)
  {
  }

  /** After the loop, each mapped field holds its fragment's patched text. */
  lemma {:induction false} WriteAllAt(es: seq<TextElem>, m: seq<Fragment>, reps: seq<Rep>, k: nat)
    requires FieldsMatch(es, m) && k < |m|
    ensures Field(WriteAll(es, m, reps), m[k]) == PatchFragment(m[k], reps)
    decreases |m|
  {
    var init := m[..|m| - 1];
    var last := m[|m| - 1];
    assert WriteAll(es, m, reps) == WriteField(WriteAll(es, init, reps), last, PatchFragment(last, reps));
    hide WriteAll, WriteField, PatchFragment;
    WriteFieldAt(WriteAll(es, init, reps), last, PatchFragment(last, reps), m[k]);
    if k < |m| - 1 {
      assert Before(m[k], last);
      assert FieldsMatch(es, init);
      assert init[k] == m[k];
      WriteAllAt(es, init, reps, k);
    }
  }

  /** Fields no fragment names are left alone. */
  lemma {:induction false} WriteAllOther(es: seq<TextElem>, m: seq<Fragment>, reps: seq<Rep>, g: Fragment)
    requires g.elem < |es|
    requires forall k :: 0 <= k < |m| ==> !SameField(m[k], g)
    ensures Field(WriteAll(es, m, reps), g) == Field(es, g)
    decreases |m|
  {
    if m != [] {
      var init := m[..|m| - 1];
      var last := m[|m| - 1];
      WriteFieldAt(WriteAll(es, init, reps), last, PatchFragment(last, reps), g);
      WriteAllOther(es, init, reps, g);
    }
  }

  /** A fragment no edit reaches keeps its text in the patched document, and
      with no edits, or a result that does not parse, nothing changes. */
  lemma ApplyUntouched(es: seq<TextElem>, reps: seq<Rep>, parses: bool, k: nat)
    requires k < |Extract(es).mapping|
    requires forall r :: r in reps ==> Outside(r, Extract(es).mapping[k])
    ensures Field(ApplyReplacements(es, reps, parses), Extract(es).mapping[k]) == Extract(es).mapping[k].text
  {
    var m := Extract(es).mapping;
    ExtractFields(es);
    if reps != [] && parses {
      var ds := SortBy(reps, DescStart);
      SortByProperties(reps, DescStart);
      assert forall r :: r in ds ==> r in multiset(reps);
      WriteAllAt(es, m, ds, k);
      PatchUntouched(m[k], ds);
    }
  }

  // ---- the length-keeping theorem ----

  /** Every edit lies inside one fragment. */
  ghost predicate WithinFragments(reps: seq<Rep>, m: seq<Fragment>)
  {
    forall r :: r in reps ==> exists k :: 0 <= k < |m| && Inside(r, m[k])
  }

  /** Tiled fragments are ordered and apart. */
  lemma {:induction false} TiledApart(m: seq<Fragment>, n: nat)
    requires Tiled(m, n)
    ensures forall k :: 0 <= k < |m| ==> m[k].start < m[k].end <= n
    ensures forall a, b :: 0 <= a < b < |m| ==> m[a].end <= m[b].start
    decreases |m|
  {
    if m != [] {
      TiledApart(m[..|m| - 1], m[|m| - 1].start);
    }
  }

  /** Every position of the tiled range lies in a fragment. */
  lemma {:induction false} TileAt(m: seq<Fragment>, n: nat, p: nat) returns (k: nat)
    requires Tiled(m, n) && p < n
    ensures k < |m| && m[k].start <= p < m[k].end
    decreases |m|
  {
    if p >= m[|m| - 1].start {
      k := |m| - 1;
    } else {
      k := TileAt(m[..|m| - 1], m[|m| - 1].start, p);
    }
  }

  /** An edit inside one tile is inside or outside each tile. */
  lemma InsideOrOutside(m: seq<Fragment>, n: nat, r: Rep, k: nat)
    requires Tiled(m, n) && k < |m|
    requires exists j :: 0 <= j < |m| && Inside(r, m[j])
    ensures Inside(r, m[k]) || Outside(r, m[k])
  {
    TiledApart(m, n);
    var j :| 0 <= j < |m| && Inside(r, m[j]);
    if j < k {
      assert m[j].end <= m[k].start;
    } else if k < j {
      assert m[k].end <= m[j].start;
    }
  }

  /** Edits in order, each inside one tile, sorted any way: each is inside
      or outside a given tile, keeps its length, and overlaps no other. */
  lemma EditsFit(m: seq<Fragment>, n: nat, reps: seq<Rep>, ds: seq<Rep>, k: nat)
    requires Tiled(m, n) && k < |m|
    requires InOrder(reps, 0, n) && WithinFragments(reps, m)
    requires forall r :: r in ds <==> r in reps
    ensures forall r :: r in ds ==> (Inside(r, m[k]) || Outside(r, m[k])) && r.start <= r.end && |r.newText| == r.end - r.start
    ensures forall x, y :: x in ds && y in ds && x != y ==> x.end <= y.start || y.end <= x.start
  {
    InOrderAfter(reps, 0, n);
    InOrderApart(reps, 0, n);
    forall r | r in ds
      ensures Inside(r, m[k]) || Outside(r, m[k])
    {
      InsideOrOutside(m, n, r, k);
    }
  }

  /** A fragment patched with fitting edits, in any order, holds the
      reference patch of the flattened text over its range. */
  lemma CompareFragment(full: string, f: Fragment, reps: seq<Rep>, ds: seq<Rep>)
    requires f.start + |f.text| == f.end <= |full| && full[f.start..f.end] == f.text
    requires InOrder(reps, 0, |full|)
    requires forall r :: r in ds <==> r in reps
    requires forall r :: r in ds ==> (Inside(r, f) || Outside(r, f)) && r.start <= r.end && |r.newText| == r.end - r.start
    requires forall x, y :: x in ds && y in ds && x != y ==> x.end <= y.start || y.end <= x.start
    ensures |PatchText(full, reps)| == |full|
    ensures PatchFragment(f, ds) == PatchText(full, reps)[f.start..f.end]
  {
    hide PatchedAt, FragmentPatchedAt;
    WholeReads(full, reps);
    FragmentReads(f, ds);
    CompareRange(full, f, reps, ds, PatchFragment(f, ds), PatchText(full, reps));
  }

  /** `t` reads as `o` with the edits `reps` written over their spans. */
  ghost predicate PatchedAt(o: string, reps: seq<Rep>, t: string)
  {
    && |t| == |o|
    && (forall r :: r in reps ==> 0 <= r.start <= r.end <= |o| && |r.newText| == r.end - r.start)
    && (forall r, q :: r in reps && Covers(r, q) ==> t[q] == r.newText[q - r.start])
    && (forall q :: 0 <= q < |o| && Uncovered(reps, q) ==> t[q] == o[q])
  }

  /** `t` reads as the fragment's text with the edits `ds` written over the
      parts of their spans inside the fragment. */
  ghost predicate FragmentPatchedAt(f: Fragment, ds: seq<Rep>, t: string)
  {
    && f.start + |f.text| == f.end
    && |t| == |f.text|
    && (forall r :: r in ds ==> r.start <= r.end && |r.newText| == r.end - r.start)
    && (forall r, q :: r in ds && Covers(r, q) && f.start <= q < f.end ==> t[q - f.start] == r.newText[q - r.start])
    && (forall q :: f.start <= q < f.end && Uncovered(ds, q) ==> t[q - f.start] == f.text[q - f.start])
  }

  lemma WholeReads(full: string, reps: seq<Rep>)
    requires InOrder(reps, 0, |full|)
    ensures |PatchText(full, reps)| == |full|
    ensures PatchedAt(full, reps, PatchText(full, reps))
  {
    PatchFromPointwise(full, reps, 0);
  }

  lemma FragmentReads(f: Fragment, ds: seq<Rep>)
    requires f.start + |f.text| == f.end
    requires forall r :: r in ds ==> (Inside(r, f) || Outside(r, f)) && r.start <= r.end && |r.newText| == r.end - r.start
    requires forall x, y :: x in ds && y in ds && x != y ==> x.end <= y.start || y.end <= x.start
    ensures FragmentPatchedAt(f, ds, PatchFragment(f, ds))
  {
    PatchFragmentPointwise(f, ds);
  }

  /** The two pointwise readings of a fragment agree over its whole range. */
  lemma CompareRange(full: string, f: Fragment, reps: seq<Rep>, ds: seq<Rep>, out: string, whole: string)
    requires f.start + |f.text| == f.end <= |full| && full[f.start..f.end] == f.text
    requires forall r :: r in ds <==> r in reps
    requires PatchedAt(full, reps, whole) && FragmentPatchedAt(f, ds, out)
    ensures out == whole[f.start..f.end]
  {
    forall j | 0 <= j < |out|
      ensures out[j] == whole[f.start..f.end][j]
    {
      ComparePosition(full, f, reps, ds, out, whole, f.start + j);
    }
  }

  /** One position of a fragment: both readings put the same edit's text
      there, or both keep the original. */
  lemma ComparePosition(full: string, f: Fragment, reps: seq<Rep>, ds: seq<Rep>, out: string, whole: string, p: int)
    requires f.start + |f.text| == f.end <= |full| && full[f.start..f.end] == f.text
    requires forall r :: r in ds <==> r in reps
    requires PatchedAt(full, reps, whole) && FragmentPatchedAt(f, ds, out)
    requires f.start <= p < f.end
    ensures out[p - f.start] == whole[p]
  {
    if Uncovered(reps, p) {
      assert Uncovered(ds, p);
      assert full[f.start..f.end][p - f.start] == full[p];
    } else {
      var r :| r in reps && Covers(r, p);
      assert r in ds;
    }
  }

  /** A tile of the flattened text, patched with the edits sorted by
      descending start, holds the reference patch over its range. */
  lemma TilePatched(full: string, m: seq<Fragment>, reps: seq<Rep>, k: nat)
    requires Tiled(m, |full|) && k < |m|
    requires m[k].start <= m[k].end <= |full| && full[m[k].start..m[k].end] == m[k].text
    requires InOrder(reps, 0, |full|) && WithinFragments(reps, m)
    ensures |PatchText(full, reps)| == |full|
    ensures PatchFragment(m[k], SortBy(reps, DescStart)) == PatchText(full, reps)[m[k].start..m[k].end]
  {
    hide PatchFragment, PatchText, SortBy, InOrder, Tiled;
    var ds := SortBy(reps, DescStart);
    SortByProperties(reps, DescStart);
    assert forall r :: r in ds <==> r in multiset(reps);
    EditsFit(m, |full|, reps, ds, k);
    CompareFragment(full, m[k], reps, ds);
  }

  /** With edits in order, length-keeping and each inside one fragment, every
      fragment patched in descending order keeps its length and holds the
      reference patch of the flattened text over its range. */
  lemma FragmentPatched(es: seq<TextElem>, reps: seq<Rep>, k: nat)
    requires k < |Extract(es).mapping|
    requires InOrder(reps, 0, |Extract(es).fullText|)
    requires WithinFragments(reps, Extract(es).mapping)
    ensures |PatchText(Extract(es).fullText, reps)| == |Extract(es).fullText|
    ensures Extract(es).mapping[k].start <= Extract(es).mapping[k].end <= |Extract(es).fullText|
    ensures var f := Extract(es).mapping[k];
      && |PatchFragment(f, SortBy(reps, DescStart))| == |f.text|
      && PatchFragment(f, SortBy(reps, DescStart)) == PatchText(Extract(es).fullText, reps)[f.start..f.end]
  {
    hide Extract, PatchFragment, PatchText, SortBy, InOrder;
    var x := Extract(es);
    ExtractLayout(es);
    TilePatched(x.fullText, x.mapping, reps, k);
  }

  /** Two documents whose fields have the same lengths. */
  ghost predicate SameShape(es: seq<TextElem>, fs: seq<TextElem>)
  {
    |fs| == |es| && forall i :: 0 <= i < |es| ==> |fs[i].text| == |es[i].text| && |fs[i].tail| == |es[i].tail|
  }

  /** Two extractions with the same ranges, element indices and kinds. */
  ghost predicate Like(x: Extraction, y: Extraction)
  {
    && |x.fullText| == |y.fullText|
    && |x.mapping| == |y.mapping|
    && forall k :: 0 <= k < |x.mapping| ==> x.mapping[k].(text := "") == y.mapping[k].(text := "")
  }

  lemma AddPieceLike(x: Extraction, y: Extraction, elem: nat, p: string, q: string, isText: bool)
    requires Like(x, y) && |p| == |q|
    ensures Like(AddPiece(x, elem, p, isText), AddPiece(y, elem, q, isText))
  {
  }

  lemma {:induction false} ExtractLike(es: seq<TextElem>, fs: seq<TextElem>)
    requires SameShape(es, fs)
    ensures Like(Extract(es), Extract(fs))
    decreases |es|
  {
    if es != [] {
      var i := |es| - 1;
      assert SameShape(es[..i], fs[..i]);
      ExtractLike(es[..i], fs[..i]);
      AddPieceLike(Extract(es[..i]), Extract(fs[..i]), i, es[i].text, fs[i].text, true);
      AddPieceLike(AddPiece(Extract(es[..i]), i, es[i].text, true), AddPiece(Extract(fs[..i]), i, fs[i].text, true),
                   i, es[i].tail, fs[i].tail, false);
    }
  }

  /** Documents of the same shape have the same ranges; only the texts
      differ. */
  lemma ExtractSameShape(es: seq<TextElem>, fs: seq<TextElem>)
    requires SameShape(es, fs)
    ensures |Extract(fs).fullText| == |Extract(es).fullText|
    ensures |Extract(fs).mapping| == |Extract(es).mapping|
    ensures forall k :: 0 <= k < |Extract(es).mapping| ==>
              Extract(fs).mapping[k] == Extract(es).mapping[k].(text := Field(fs, Extract(es).mapping[k]))
  {
    ExtractLike(es, fs);
    ExtractFields(fs);
    var m := Extract(es).mapping;
    var n := Extract(fs).mapping;
    forall k | 0 <= k < |m|
      ensures n[k] == m[k].(text := Field(fs, m[k]))
    {
      assert n[k].(text := "") == m[k].(text := "");
      assert Field(fs, n[k]) == Field(fs, m[k]);
    }
  }

  /** The written document has the original's shape when every patched
      fragment keeps its length. */
  lemma WrittenShape(es: seq<TextElem>, m: seq<Fragment>, ds: seq<Rep>)
    requires FieldsMatch(es, m)
    requires forall k :: 0 <= k < |m| ==> |PatchFragment(m[k], ds)| == |m[k].text|
    ensures SameShape(es, WriteAll(es, m, ds))
  {
    var w := WriteAll(es, m, ds);
    forall i, b: bool | 0 <= i < |es|
      ensures |Field(w, Fragment(0, 0, i, "", b))| == |Field(es, Fragment(0, 0, i, "", b))|
    {
      var g := Fragment(0, 0, i, "", b);
      if k :| 0 <= k < |m| && SameField(m[k], g) {
        WriteAllAt(es, m, ds, k);
      } else {
        WriteAllOther(es, m, ds, g);
      }
    }
    forall i | 0 <= i < |es|
      ensures |w[i].text| == |es[i].text| && |w[i].tail| == |es[i].tail|
    {
      assert Field(w, Fragment(0, 0, i, "", true)) == w[i].text;
      assert Field(w, Fragment(0, 0, i, "", false)) == w[i].tail;
    }
  }

  /** Two texts that agree over every tile of a tiling are equal. */
  lemma TiledAgree(m: seq<Fragment>, a: string, b: string)
    requires Tiled(m, |a|) && |b| == |a|
    requires forall k :: 0 <= k < |m| ==> m[k].start <= m[k].end <= |a| && a[m[k].start..m[k].end] == b[m[k].start..m[k].end]
    ensures a == b
  {
    hide Tiled;
    forall p | 0 <= p < |a|
      ensures a[p] == b[p]
    {
      var k := TileAt(m, |a|, p);
      assert a[m[k].start..m[k].end][p - m[k].start] == a[p];
      assert b[m[k].start..m[k].end][p - m[k].start] == b[p];
    }
  }

  /** Every fragment, patched in descending order, keeps its length and
      holds the reference patch over its range. */
  lemma AllFragmentsPatched(es: seq<TextElem>, reps: seq<Rep>)
    requires InOrder(reps, 0, |Extract(es).fullText|)
    requires WithinFragments(reps, Extract(es).mapping)
    ensures |PatchText(Extract(es).fullText, reps)| == |Extract(es).fullText|
    ensures forall k :: 0 <= k < |Extract(es).mapping| ==>
      && Extract(es).mapping[k].start <= Extract(es).mapping[k].end <= |Extract(es).fullText|
      && |PatchFragment(Extract(es).mapping[k], SortBy(reps, DescStart))| == |Extract(es).mapping[k].text|
      && PatchFragment(Extract(es).mapping[k], SortBy(reps, DescStart))
           == PatchText(Extract(es).fullText, reps)[Extract(es).mapping[k].start..Extract(es).mapping[k].end]
  {
    PatchFromPointwise(Extract(es).fullText, reps, 0);
    forall k | 0 <= k < |Extract(es).mapping|
      ensures && Extract(es).mapping[k].start <= Extract(es).mapping[k].end <= |Extract(es).fullText|
              && |PatchFragment(Extract(es).mapping[k], SortBy(reps, DescStart))| == |Extract(es).mapping[k].text|
              && PatchFragment(Extract(es).mapping[k], SortBy(reps, DescStart))
                   == PatchText(Extract(es).fullText, reps)[Extract(es).mapping[k].start..Extract(es).mapping[k].end]
    {
      FragmentPatched(es, reps, k);
    }
  }

  /** The written fragments, read back through a fresh extraction, agree
      with the reference patch over every tile. */
  lemma WrittenAgrees(es: seq<TextElem>, reps: seq<Rep>)
    requires InOrder(reps, 0, |Extract(es).fullText|)
    requires WithinFragments(reps, Extract(es).mapping)
    ensures var w := WriteAll(es, Extract(es).mapping, SortBy(reps, DescStart));
      && Like(Extract(es), Extract(w))
      && |PatchText(Extract(es).fullText, reps)| == |Extract(es).fullText|
      && forall k :: 0 <= k < |Extract(es).mapping| ==>
           Extract(es).mapping[k].start <= Extract(es).mapping[k].end <= |Extract(es).fullText| &&
           Extract(w).fullText[Extract(es).mapping[k].start..Extract(es).mapping[k].end]
             == PatchText(Extract(es).fullText, reps)[Extract(es).mapping[k].start..Extract(es).mapping[k].end]
  {
    var m := Extract(es).mapping;
    var full := Extract(es).fullText;
    var ds := SortBy(reps, DescStart);
    var whole := PatchText(full, reps);
    ExtractFields(es);
    AllFragmentsPatched(es, reps);
    var w := WriteAll(es, m, ds);
    WrittenShape(es, m, ds);
    ExtractSameShape(es, w);
    ExtractLike(es, w);
    ExtractLayout(w);
    var y := Extract(w);
    forall k | 0 <= k < |m|
      ensures y.fullText[m[k].start..m[k].end] == whole[m[k].start..m[k].end]
    {
      WriteAllAt(es, m, ds, k);
      assert y.mapping[k] == m[k].(text := PatchFragment(m[k], ds));
    }
  }

  /** When the edits are in order, length-keeping and each inside one
      fragment, the patched document's text is the flattened text with the
      edits applied. */
  lemma DocumentPatched(es: seq<TextElem>, reps: seq<Rep>)
    requires InOrder(reps, 0, |AllText(es)|)
    requires WithinFragments(reps, Extract(es).mapping)
    ensures AllText(ApplyReplacements(es, reps, true)) == PatchText(AllText(es), reps)
  {
    var x := Extract(es);
    ExtractLayout(es);
    if reps == [] {
      PatchFromPointwise(x.fullText, reps, 0);
      assert PatchText(x.fullText, reps) == x.fullText;
    } else {
      var w := WriteAll(es, x.mapping, SortBy(reps, DescStart));
      assert ApplyReplacements(es, reps, true) == w;
      hide ApplyReplacements, WriteAll, Extract, SortBy, PatchText, AllText;
      WrittenAgrees(es, reps);
      ExtractLayout(w);
      TiledAgree(x.mapping, Extract(w).fullText, PatchText(x.fullText, reps));
    }
  }

  /** The document processor's promise for equal-length masking: when each run of
      masked characters falls inside one fragment, the patched document reads
      as the masked text. */
  lemma DocumentMasked(es: seq<TextElem>, masked: string, ents: seq<Entities.Entity>)
    requires |masked| == |AllText(es)|
    requires WithinFragments(FastPath(AllText(es), masked), Extract(es).mapping)
    ensures AllText(ApplyReplacements(es, GenerateReplacements(AllText(es), masked, ents), true)) == masked
  {
    var full := AllText(es);
    GenerateEqualLength(full, masked, ents);
    FastPathInOrder(full, masked);
    DocumentPatched(es, FastPath(full, masked));
  }

  /** An edit spanning two fragments puts its whole text into each of them. */
  lemma StraddlingEdit()
    ensures ApplyReplacements([TextElem("ab", ""), TextElem("cd", "")], [Rep(1, 3, "**")], true)
         == [TextElem("a**", ""), TextElem("**d", "")]
  {
    var es := [TextElem("ab", ""), TextElem("cd", "")];
    var reps := [Rep(1, 3, "**")];
    var f0 := Fragment(0, 2, 0, "ab", true);
    var f1 := Fragment(2, 4, 1, "cd", true);
    StraddleExtract();
    StraddleSplices();
    SortByProperties(reps, DescStart);
    var m := [f0, f1];
    assert m[..1] == [f0] && [f0][..0] == [];
    hide PatchFragment, Extract, SortBy;
    assert WriteAll(es, [f0], reps) == WriteField(es, f0, "a**");
    assert WriteAll(es, m, reps) == WriteField(WriteField(es, f0, "a**"), f1, "**d");
  }

  lemma StraddleExtract()
    ensures Extract([TextElem("ab", ""), TextElem("cd", "")]).mapping == [Fragment(0, 2, 0, "ab", true), Fragment(2, 4, 1, "cd", true)]
  {
    var es := [TextElem("ab", ""), TextElem("cd", "")];
    assert es[..1] == [es[0]] && [es[0]][..0] == [];
    assert Extract([es[0]]) == Extraction("ab", [Fragment(0, 2, 0, "ab", true)]);
  }

  lemma StraddleSplices()
    ensures PatchFragment(Fragment(0, 2, 0, "ab", true), [Rep(1, 3, "**")]) == "a**"
    ensures PatchFragment(Fragment(2, 4, 1, "cd", true), [Rep(1, 3, "**")]) == "**d"
  {
    var r := Rep(1, 3, "**");
    assert [r][..0] == [];
    assert Splice("ab", Fragment(0, 2, 0, "ab", true), r) == "ab"[..1] + "**" + "ab"[2..];
    assert Splice("cd", Fragment(2, 4, 1, "cd", true), r) == "cd"[..0] + "**" + "cd"[1..];
  }
}
