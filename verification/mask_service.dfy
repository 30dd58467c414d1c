/** The `/mask/custom` endpoint: requested labels are split between the
    pattern detector and the semantic recognizer, their entities are
    reconciled, and the text is masked. */
module MaskService {
  import opened Wrappers
  import opened Seqs
  import opened Entities
  import opened RegexEntities
  import opened RegexEntitiesSpec
  import opened Chunking
  import opened Reconcile
  import opened Masking

  /** `MaskRequest`: absent optional fields are `None`. */
  datatype Request = Request(text: string, schemalist: Option<seq<string>>, maxChunkLen: Option<int>)

  /** The response body. */
  datatype Response = Response(
    original: string,
    masked: string,
    entitiesFound: seq<Entity>,
    mandatory: seq<Label>,
    optionalSelected: seq<Label>)

  /** `HTTPException(status_code, detail)`. */
  datatype HttpError = HttpError(status: nat, detail: string)

  const DEFAULT_CHUNK_LEN: int := 300

  /** `req.schemalist or []`: no list, or an empty one, selects nothing. */
  function SelectedLabels(req: Request): (r: seq<Label>)
    ensures req.schemalist.None? ==> r == []
    ensures req.schemalist.Some? ==> |r| == |req.schemalist.value|
    ensures req.schemalist.Some? ==> forall i :: 0 <= i < |r| ==> LabelText(r[i]) == req.schemalist.value[i]
  {
    match req.schemalist
    case None => []
    case Some(ls) => seq(|ls|, i requires 0 <= i < |ls| => ParseLabel(ls[i]))
  }

  /** `req.max_chunk_len or 300`: a missing or zero length means 300. */
  function ChunkLen(req: Request): (n: int)
    ensures n != 0
    ensures req.maxChunkLen.Some? && req.maxChunkLen.value != 0 ==> n == req.maxChunkLen.value
    ensures req.maxChunkLen.None? || req.maxChunkLen.value == 0 ==> n == DEFAULT_CHUNK_LEN
  {
    match req.maxChunkLen
    case Some(n) => if n == 0 then DEFAULT_CHUNK_LEN else n
    case None => DEFAULT_CHUNK_LEN
  }

  /** `[l for l in labels if (l in MANDATORY_NUMERIC_SCHEMA) == numeric]`. */
  function Keep(labels: seq<Label>, numeric: bool): (r: seq<Label>)
    ensures forall l :: l in r <==> l in labels && IsMandatory(l) == numeric
  {
    if labels == [] then []
    else
      var rest := Keep(labels[1..], numeric);
      assert forall l :: l in labels <==> l == labels[0] || l in labels[1..];
      if IsMandatory(labels[0]) == numeric then [labels[0]] + rest else rest
  }

  /** The filter keeps order and repeats: a label list is filtered label by
      label, and the kept labels come out in the order they were selected. */
  lemma {:induction false} KeepAppend(xs: seq<Label>, ys: seq<Label>, numeric: bool)
    ensures Keep(xs + ys, numeric) == Keep(xs, numeric) + Keep(ys, numeric)
    ensures |xs| == 1 ==> Keep(xs, numeric) == if IsMandatory(xs[0]) == numeric then xs else []
    decreases |xs|
  {
    if xs == [] {
      assert xs + ys == ys;
    } else {
      assert (xs + ys)[0] == xs[0] && (xs + ys)[1..] == xs[1..] + ys;
      KeepAppend(xs[1..], ys, numeric);
      if |xs| == 1 {
        assert xs[1..] == [] && [xs[0]] == xs;
      }
    }
  }

  /** The two label lists split the selection: each label goes to exactly one
      of them, in order. */
  lemma {:induction false} KeepPartition(labels: seq<Label>)
    ensures |Keep(labels, true)| + |Keep(labels, false)| == |labels|
    ensures multiset(Keep(labels, true)) + multiset(Keep(labels, false)) == multiset(labels)
    decreases |labels|
  {
    if labels != [] {
      KeepPartition(labels[1..]);
      assert labels == [labels[0]] + labels[1..];
    }
  }

  /** The pattern entities, computed only when a pattern label is selected. */
  function RegexPart(req: Request, c: Candidates, cc: CharTests): seq<Entity>
  {
    var numeric := Keep(SelectedLabels(req), true);
    if numeric != [] then GetRegexEntities(numeric, c, cc) else []
  }

  /** The semantic entities, computed only when a semantic label is selected. */
  function TaskflowPart(req: Request, rec: Recognizer, cc: CharTests): seq<Entity>
  {
    var semantic := Keep(SelectedLabels(req), false);
    if semantic != [] then GetTaskflowEntities(req.text, semantic, ChunkLen(req), rec, cc) else []
  }

  /** `mask_custom`. The pattern matches of the text (`c`), the recognizer
      (`rec`) and the character tests (`cc`) are parameters. */
  function MaskCustom(req: Request, c: Candidates, rec: Recognizer, cc: CharTests): (r: Result<Response, HttpError>)
    ensures r.Failure? <==> IsBlank(cc, req.text)
    ensures r.Failure? ==> r.error == HttpError(400, "text is empty")
    ensures r.Success? ==> r.value.original == req.text && r.value.mandatory == MANDATORY
    ensures r.Success? ==> forall l :: l in r.value.optionalSelected <==> l in SelectedLabels(req) && !IsMandatory(l)
    ensures r.Success? ==> r.value.optionalSelected == Keep(SelectedLabels(req), false)
  {
    if IsBlank(cc, req.text) then Failure(HttpError(400, "text is empty"))
    else
      var found := Reconciled(req.text, RegexPart(req, c, cc), TaskflowPart(req, rec, cc), cc);
      Success(Response(req.text, ApplyMasking(cc, req.text, found), found, MANDATORY, Keep(SelectedLabels(req), false)))
  }

  // ---- properties of the endpoint ----

  /** With no labels selected nothing is found and the text comes back
      unmasked. */
  lemma NothingSelected(req: Request, c: Candidates, rec: Recognizer, cc: CharTests)
    requires !IsBlank(cc, req.text)
    requires req.schemalist.None? || req.schemalist == Some([])
    ensures MaskCustom(req, c, rec, cc).Success?
    ensures MaskCustom(req, c, rec, cc).value.entitiesFound == []
    ensures MaskCustom(req, c, rec, cc).value.masked == req.text
  {
    var fm := FinalMap(req.text, [], [], cc);
    assert FirstLabels([]) == [];
    assert fm == [];
  }

  /** Every reported entity is a pattern entity of a selected pattern label,
      a semantic entity, or a rescanned occurrence; pattern entities appear
      only when a pattern label is selected. */
  lemma FoundOrigin(req: Request, c: Candidates, rec: Recognizer, cc: CharTests, x: Entity)
    requires MaskCustom(req, c, rec, cc).Success?
    requires x in MaskCustom(req, c, rec, cc).value.entitiesFound
    ensures x.how == Regex ==> x.category in SelectedLabels(req) && IsMandatory(x.category)
    ensures x.how == Regex || x.how == TaskflowChunk || x.how == TaskflowGlobalScan
  {
    var regexEnts := RegexPart(req, c, cc);
    var tfEnts := TaskflowPart(req, rec, cc);
    ReconciledSourced(req.text, regexEnts, tfEnts, cc, x);
    if x in regexEnts {
      RegexEntitiesFrom(Keep(SelectedLabels(req), true), c, cc, 0, x);
    } else if x in tfEnts {
      var semantic := Keep(SelectedLabels(req), false);
      var cs := SplitIntoChunks(req.text, ChunkLen(req));
      RecognizeMethod(cs, rec, cc);
    }
  }

  /** The reported entities are sorted by start and no two of them share a
      span. */
  lemma FoundSorted(req: Request, c: Candidates, rec: Recognizer, cc: CharTests)
    requires MaskCustom(req, c, rec, cc).Success?
    ensures var es := MaskCustom(req, c, rec, cc).value.entitiesFound;
      && SortedBy(es, StartKey)
      && forall x, y :: x in es && y in es && SpanOf(x) == SpanOf(y) ==> x == y
  {
    var regexEnts := RegexPart(req, c, cc);
    var tfEnts := TaskflowPart(req, rec, cc);
    ReconciledSorted(req.text, regexEnts, tfEnts, cc);
    forall x, y | x in Reconciled(req.text, regexEnts, tfEnts, cc) && y in Reconciled(req.text, regexEnts, tfEnts, cc) && SpanOf(x) == SpanOf(y)
      ensures x == y
    {
      ReconciledSpansDistinct(req.text, regexEnts, tfEnts, cc, x, y);
    }
  }

  /** Every reported entity lies within the text, given pattern matches
      within the text and a recognizer that reports spans of the chunk it is
      given. */
  lemma FoundWithin(req: Request, c: Candidates, rec: Recognizer, cc: CharTests, x: Entity)
    requires CandidatesWithin(c, cc, |req.text|)
    requires forall s :: Honest(rec, s)
    requires MaskCustom(req, c, rec, cc).Success?
    requires x in MaskCustom(req, c, rec, cc).value.entitiesFound
    ensures x.start <= x.end <= |req.text|
  {
    var regexEnts := RegexPart(req, c, cc);
    var tfEnts := TaskflowPart(req, rec, cc);
    ReconciledSourced(req.text, regexEnts, tfEnts, cc, x);
    if x in regexEnts {
      RegexEntitiesFrom(Keep(SelectedLabels(req), true), c, cc, |req.text|, x);
    } else if x in tfEnts {
      TaskflowLocates(req.text, Keep(SelectedLabels(req), false), ChunkLen(req), rec, cc);
    }
  }

  /** The masked text has the original's length, differs from it only by
      `'*'`, and only inside reported entities. */
  lemma MaskedShape(req: Request, c: Candidates, rec: Recognizer, cc: CharTests)
    requires CandidatesWithin(c, cc, |req.text|)
    requires forall s :: Honest(rec, s)
    requires MaskCustom(req, c, rec, cc).Success?
    ensures var r := MaskCustom(req, c, rec, cc).value;
      && |r.masked| == |req.text|
      && (forall i :: 0 <= i < |req.text| ==> r.masked[i] == req.text[i] || r.masked[i] == '*')
      && (forall i :: 0 <= i < |req.text| && r.masked[i] != req.text[i] ==>
            exists e :: e in r.entitiesFound && e.start <= i < e.end)
  {
    var r := MaskCustom(req, c, rec, cc).value;
    var found := r.entitiesFound;
    forall x | x in found
      ensures x.start <= x.end <= |req.text|
    {
      FoundWithin(req, c, rec, cc, x);
    }
    MaskingShape(cc, req.text, found);
    forall i | 0 <= i < |req.text| && r.masked[i] != req.text[i]
      ensures exists e :: e in found && e.start <= i < e.end
    {
      if forall e :: e in found ==> !(e.start <= i < e.end) {
        MaskingOutside(cc, req.text, found, i);
      }
    }
  }
}
