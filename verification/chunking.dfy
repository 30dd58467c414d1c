/** Long-text chunking for the semantic recognizer (`split_into_chunks` inside
    `get_taskflow_entities`): the text is cut after each sentence delimiter,
    sentences are packed greedily into chunks of at most `max_len` characters,
    and each chunk remembers where it starts so that the recognizer's
    chunk-relative spans can be shifted back onto the whole text. */
module Chunking {
  import opened Wrappers
  import opened Seqs
  import opened Entities

  /** The capture group `(\n|。|！|？|；)`. */
  predicate IsDelim(c: char)
  {
    c == '\n' || c == '。' || c == '！' || c == '？' || c == '；'
  }

  predicate NoDelim(s: string)
  {
    forall i :: 0 <= i < |s| ==> !IsDelim(s[i])
  }

  /** `parts[i] + parts[i+1]`: delimiter-free content followed by one delimiter. */
  predicate Sentence(s: string)
  {
    |s| > 0 && IsDelim(s[|s| - 1]) && NoDelim(s[..|s| - 1])
  }

  /** `pieces` and `rest` cut `text` into delimiter-ended sentences and a
      delimiter-free remainder. */
  predicate SplitOf(text: string, pieces: seq<string>, rest: string)
  {
    && Concat(pieces) + rest == text
    && (forall k :: 0 <= k < |pieces| ==> Sentence(pieces[k]))
    && NoDelim(rest)
  }

  /** One more character either closes the open sentence or extends it. */
  lemma SplitExtend(text: string, pieces: seq<string>, rest: string, c: char)
    requires SplitOf(text, pieces, rest)
    ensures IsDelim(c) ==> SplitOf(text + [c], pieces + [rest + [c]], [])
    ensures !IsDelim(c) ==> SplitOf(text + [c], pieces, rest + [c])
  {
    if IsDelim(c) {
      ConcatAppend(pieces, rest + [c]);
      assert (rest + [c])[..|rest + [c]| - 1] == rest;
    }
  }

  /** `re.split(delimiters, text)` read in pairs: the sentences, each ending in
      its delimiter, and the trailing remainder `parts[-1]`. */
  function SplitSentences(text: string): (r: (seq<string>, string))
    ensures SplitOf(text, r.0, r.1)
  {
    if text == [] then ([], [])
    else
      var init := SplitSentences(text[..|text| - 1]);
      var c := text[|text| - 1];
      assert text == text[..|text| - 1] + [c];
      SplitExtend(text[..|text| - 1], init.0, init.1, c);
      if IsDelim(c) then (init.0 + [init.1 + [c]], []) else (init.0, init.1 + [c])
  }

  /** The split is determined by those properties: `SplitSentences` is the
      only way to cut a text into delimiter-ended sentences and a
      delimiter-free remainder. */
  lemma {:induction false} SplitUnique(text: string, pieces: seq<string>, rest: string)
    requires SplitOf(text, pieces, rest)
    ensures SplitSentences(text) == (pieces, rest)
    decreases |text|
  {
    if text != [] {
      var c := text[|text| - 1];
      var init := text[..|text| - 1];
      if rest != [] {
        assert rest[|rest| - 1] == c;
        var rest' := rest[..|rest| - 1];
        assert Concat(pieces) + rest' == init;
        SplitUnique(init, pieces, rest');
        assert rest == rest' + [c];
      } else {
        assert pieces != [];
        var n := |pieces|;
        var last := pieces[n - 1];
        assert pieces == pieces[..n - 1] + [last];
        ConcatAppend(pieces[..n - 1], last);
        var last' := last[..|last| - 1];
        assert last == last' + [c];
        assert Concat(pieces[..n - 1]) + last' == init;
        SplitUnique(init, pieces[..n - 1], last');
      }
    }
  }

  /** A chunk and the offset `split_into_chunks` computes for it with `text.find`. */
  datatype Chunk = Chunk(text: string, offset: int)

  /** The chunk texts laid end to end. */
  function Joined(cs: seq<Chunk>): string
  {
    if cs == [] then [] else Joined(cs[..|cs| - 1]) + cs[|cs| - 1].text
  }

  predicate Occurs(text: string, sub: string, i: nat)
  {
    i + |sub| <= |text| && text[i..i + |sub|] == sub
  }

  /** Python `text.find(sub, start)` for a non-negative start: the first index
      at or after `start` where `sub` occurs, or -1. */
  function Find(text: string, sub: string, start: nat): int
    decreases |text| - start
  {
    if start + |sub| > |text| then -1
    else if text[start..start + |sub|] == sub then start
    else Find(text, sub, start + 1)
  }

  /** `Find` returns the first occurrence at or after `start`, and -1 exactly
      when there is none. */
  lemma {:induction false} FindFirst(text: string, sub: string, start: nat)
    ensures var r := Find(text, sub, start);
      && (r == -1 || (start <= r && Occurs(text, sub, r)))
      && (r != -1 ==> forall i :: start <= i < r ==> !Occurs(text, sub, i))
      && (r == -1 ==> forall i :: start <= i ==> !Occurs(text, sub, i))
    decreases |text| - start
  {
    if start + |sub| <= |text| && text[start..start + |sub|] != sub {
      FindFirst(text, sub, start + 1);
    }
  }

  /** Each chunk starts at the summed length of the chunks before it. */
  predicate Located(cs: seq<Chunk>)
  {
    cs == [] || (Located(cs[..|cs| - 1]) && cs[|cs| - 1].offset == |Joined(cs[..|cs| - 1])|)
  }

  lemma AppendChunk(cs: seq<Chunk>, c: Chunk)
    ensures Joined(cs + [c]) == Joined(cs) + c.text
    ensures Located(cs + [c]) <==> Located(cs) && c.offset == |Joined(cs)|
  {
    assert (cs + [c])[..|cs|] == cs;
  }

  /** `Located` spelled out chunk by chunk; each chunk's text is the slice of
      the joined text at its offset. */
  lemma {:induction false} LocatedAt(cs: seq<Chunk>, k: nat)
    requires Located(cs) && k < |cs|
    ensures cs[k].offset == |Joined(cs[..k])|
    ensures cs[k].offset + |cs[k].text| <= |Joined(cs)|
    ensures Joined(cs)[cs[k].offset..cs[k].offset + |cs[k].text|] == cs[k].text
    decreases |cs|
  {
    var init := cs[..|cs| - 1];
    var last := cs[|cs| - 1];
    assert Joined(cs) == Joined(init) + last.text;
    assert Located(init) && last.offset == |Joined(init)|;
    hide Joined, Located;
    if k < |cs| - 1 {
      LocatedAt(init, k);
      assert init[..k] == cs[..k];
      assert init[k] == cs[k];
      SliceOfFirst(Joined(init), last.text, cs[k].offset, cs[k].offset + |cs[k].text|);
    } else {
      assert cs[..k] == init;
      SliceOfSecond(Joined(init), last.text, 0, |last.text|);
      assert last.text[0..|last.text|] == last.text;
    }
  }

  /** Sentence `i` sits right after the sentences before it. */
  lemma PieceAt(text: string, pieces: seq<string>, rest: string, i: nat)
    requires Concat(pieces) + rest == text
    requires i < |pieces|
    ensures Occurs(text, pieces[i], |Concat(pieces[..i])|)
    ensures Concat(pieces[..i + 1]) == Concat(pieces[..i]) + pieces[i]
  {
    ConcatPrefixIsPrefix(pieces, i + 1);
    ConcatPrefixLength(pieces, i);
    assert pieces[..i + 1] == pieces[..i] + [pieces[i]];
    ConcatAppend(pieces[..i], pieces[i]);
  }

  /** `text.find(sub, start)` with Python's reading of a negative start as
      counting from the end. */
  function PyFind(text: string, sub: string, start: int): int
  {
    Find(text, sub, if start >= 0 then start else Max(0, |text| + start))
  }

  /** `sub` searched for from where it actually sits is found there. */
  lemma FindAt(text: string, sub: string, at: nat)
    requires Occurs(text, sub, at)
    ensures PyFind(text, sub, at) == at
  {
    FindFirst(text, sub, at);
  }

  /** The loop state of `split_into_chunks`: `chunks`, `current_chunk`,
      `current_start`. */
  datatype Packing = Packing(chunks: seq<Chunk>, current: string, currentStart: int)

  /** One iteration of the `for` loop over sentence `content`. */
  function PackStep(text: string, maxLen: int, p: Packing, content: string): Packing
  {
    if |p.current| + |content| > maxLen && p.current != [] then
      // `chunks[-1][0]` is the chunk just flushed, `current_chunk`
      Packing(p.chunks + [Chunk(p.current, p.currentStart)], content, PyFind(text, content, p.currentStart + |p.current|))
    else if p.current == [] then
      Packing(p.chunks, p.current + content, PyFind(text, content, p.currentStart))
    else
      Packing(p.chunks, p.current + content, p.currentStart)
  }

  /** The loop run over `pieces` from the initial state. */
  function Pack(text: string, maxLen: int, pieces: seq<string>): Packing
  {
    if pieces == [] then Packing([], [], 0)
    else PackStep(text, maxLen, Pack(text, maxLen, pieces[..|pieces| - 1]), pieces[|pieces| - 1])
  }

  /** The code after the loop: the remainder `parts[-1]` either joins the
      last chunk or, if that would overflow, becomes a chunk of its own. */
  function Finish(text: string, maxLen: int, p: Packing, rest: string): seq<Chunk>
  {
    if |p.current| + |rest| > maxLen && p.current != [] then
      // `chunks[-1][0]` is the chunk just flushed, `current_chunk`
      p.chunks + [Chunk(p.current, p.currentStart)] + [Chunk(rest, PyFind(text, rest, p.currentStart + |p.current|))]
    else if p.current + rest != [] then
      p.chunks + [Chunk(p.current + rest, p.currentStart)]
    else
      p.chunks
  }

  lemma PackUnfold(text: string, maxLen: int, pieces: seq<string>, i: nat)
    requires i < |pieces|
    ensures Pack(text, maxLen, pieces[..i + 1]) == PackStep(text, maxLen, Pack(text, maxLen, pieces[..i]), pieces[i])
  {
    assert pieces[..i + 1][..i] == pieces[..i];
  }

  /** What holds after the loop has consumed the first `i` sentences: the
      text so far is rebuilt exactly, with every offset in place ... */
  predicate PackText(text: string, pieces: seq<string>, i: nat, p: Packing)
    requires i <= |pieces|
  {
    && Joined(p.chunks) + p.current == Concat(pieces[..i])
    && p.currentStart == |Joined(p.chunks)|
    && (i > 0 <==> p.current != [])
    && Located(p.chunks)
  }

  /** ... and only a single sentence exceeds `max_len`. */
  predicate PackLong(maxLen: int, pieces: seq<string>, i: nat, p: Packing)
    requires i <= |pieces|
  {
    && (forall k :: 0 <= k < |p.chunks| && |p.chunks[k].text| > maxLen ==> p.chunks[k].text in pieces)
    && (|p.current| > maxLen && i > 0 ==> p.current == pieces[i - 1])
  }

  /** One iteration keeps the bookkeeping exact: the `text.find` calls land
      where the sentence actually starts. */
  lemma PackTextStep(text: string, maxLen: int, pieces: seq<string>, rest: string, i: nat, p: Packing)
    requires SplitOf(text, pieces, rest)
    requires i < |pieces|
    requires PackText(text, pieces, i, p)
    ensures PackText(text, pieces, i + 1, PackStep(text, maxLen, p, pieces[i]))
  {
    var content := pieces[i];
    assert Sentence(content);
    PieceAt(text, pieces, rest, i);
    var at := |Concat(pieces[..i])|;
    if |p.current| + |content| > maxLen && p.current != [] {
      var c := Chunk(p.current, p.currentStart);
      AppendChunk(p.chunks, c);
      FindAt(text, content, at);
    } else if p.current == [] {
      FindAt(text, content, at);
    }
  }

  /** One iteration lets only a lone sentence grow past `max_len`. */
  lemma PackLongStep(text: string, maxLen: int, pieces: seq<string>, i: nat, p: Packing)
    requires i < |pieces|
    requires i > 0 <==> p.current != []
    requires PackLong(maxLen, pieces, i, p)
    ensures PackLong(maxLen, pieces, i + 1, PackStep(text, maxLen, p, pieces[i]))
  {
    var content := pieces[i];
    var p' := PackStep(text, maxLen, p, content);
    if |p.current| + |content| > maxLen && p.current != [] {
      forall k | 0 <= k < |p'.chunks| && |p'.chunks[k].text| > maxLen
        ensures p'.chunks[k].text in pieces
      {
        if k == |p.chunks| {
          assert p'.chunks[k].text == pieces[i - 1];
        } else {
          assert p'.chunks[k] == p.chunks[k];
        }
      }
    } else if p.current == [] {
      assert p'.current == content;
    } else {
      assert |p'.current| <= maxLen;
    }
  }

  lemma {:induction false} PackTextInvariant(text: string, maxLen: int, pieces: seq<string>, rest: string, i: nat)
    requires SplitOf(text, pieces, rest)
    requires i <= |pieces|
    ensures PackText(text, pieces, i, Pack(text, maxLen, pieces[..i]))
  {
    if i > 0 {
      PackTextInvariant(text, maxLen, pieces, rest, i - 1);
      PackUnfold(text, maxLen, pieces, i - 1);
      PackTextStep(text, maxLen, pieces, rest, i - 1, Pack(text, maxLen, pieces[..i - 1]));
    }
  }

  lemma {:induction false} PackLongInvariant(text: string, maxLen: int, pieces: seq<string>, rest: string, i: nat)
    requires SplitOf(text, pieces, rest)
    requires i <= |pieces|
    ensures PackLong(maxLen, pieces, i, Pack(text, maxLen, pieces[..i]))
  {
    if i > 0 {
      PackLongInvariant(text, maxLen, pieces, rest, i - 1);
      PackTextInvariant(text, maxLen, pieces, rest, i - 1);
      PackUnfold(text, maxLen, pieces, i - 1);
      PackLongStep(text, maxLen, pieces, i - 1, Pack(text, maxLen, pieces[..i - 1]));
    }
  }

  /** After the whole loop the flushed chunks, the open chunk and the
      remainder rebuild the text, and the remainder sits where it should. */
  lemma PackDone(text: string, maxLen: int, pieces: seq<string>, rest: string)
    requires SplitOf(text, pieces, rest)
    ensures var p := Pack(text, maxLen, pieces);
      && Joined(p.chunks) + p.current + rest == text
      && Located(p.chunks)
      && p.currentStart == |Joined(p.chunks)|
      && Occurs(text, rest, |Joined(p.chunks)| + |p.current|)
      && (|pieces| > 0 <==> p.current != [])
  {
    var p := Pack(text, maxLen, pieces);
    assert pieces[..|pieces|] == pieces;
    PackTextInvariant(text, maxLen, pieces, rest, |pieces|);
    assert PackText(text, pieces, |pieces|, p);
    var head := Joined(p.chunks) + p.current;
    assert head == Concat(pieces);
    assert text == head + rest;
    assert text[|head|..|head| + |rest|] == rest;
  }

  /** The chunk texts rebuild `text`. */
  lemma FinishJoined(text: string, maxLen: int, p: Packing, rest: string)
    requires Joined(p.chunks) + p.current + rest == text
    ensures Joined(Finish(text, maxLen, p, rest)) == text
  {
    if |p.current| + |rest| > maxLen && p.current != [] {
      var c := Chunk(p.current, p.currentStart);
      AppendChunk(p.chunks, c);
      AppendChunk(p.chunks + [c], Chunk(rest, PyFind(text, rest, p.currentStart + |p.current|)));
    } else if p.current + rest != [] {
      AppendChunk(p.chunks, Chunk(p.current + rest, p.currentStart));
    }
  }

  /** Each offset is the summed length of the chunks before it: the last
      `text.find` also lands where the remainder sits. */
  lemma FinishLocated(text: string, maxLen: int, p: Packing, rest: string)
    requires Located(p.chunks) && p.currentStart == |Joined(p.chunks)|
    requires Occurs(text, rest, |Joined(p.chunks)| + |p.current|)
    ensures Located(Finish(text, maxLen, p, rest))
  {
    if |p.current| + |rest| > maxLen && p.current != [] {
      var c := Chunk(p.current, p.currentStart);
      AppendChunk(p.chunks, c);
      FindAt(text, rest, |Joined(p.chunks)| + |p.current|);
      AppendChunk(p.chunks + [c], Chunk(rest, PyFind(text, rest, p.currentStart + |p.current|)));
    } else if p.current + rest != [] {
      AppendChunk(p.chunks, Chunk(p.current + rest, p.currentStart));
    }
  }

  /** Only a single sentence or the remainder can make a chunk longer than
      `max_len`. */
  lemma FinishLong(text: string, maxLen: int, pieces: seq<string>, rest: string, p: Packing)
    requires |pieces| > 0 <==> p.current != []
    requires PackLong(maxLen, pieces, |pieces|, p)
    ensures var cs := Finish(text, maxLen, p, rest);
      forall k :: 0 <= k < |cs| && |cs[k].text| > maxLen ==> cs[k].text in pieces || cs[k].text == rest
  {
    var cs := Finish(text, maxLen, p, rest);
    forall k | 0 <= k < |cs| && |cs[k].text| > maxLen
      ensures cs[k].text in pieces || cs[k].text == rest
    {
      if k < |p.chunks| {
        assert cs[k] == p.chunks[k];
      } else if k == |p.chunks| && |p.current| + |rest| > maxLen && p.current != [] {
        assert cs[k].text == pieces[|pieces| - 1];
      } else if k == |p.chunks| && p.current == [] {
        assert cs[k].text == rest;
      }
    }
  }

  /** `split_into_chunks(text, max_len)`: sentences packed greedily, then the
      remainder. */
  function SplitIntoChunks(text: string, maxLen: int): (chunks: seq<Chunk>)
    ensures Joined(chunks) == text
    ensures Located(chunks)
    ensures forall k :: 0 <= k < |chunks| && |chunks[k].text| > maxLen ==>
              chunks[k].text in SplitSentences(text).0 || chunks[k].text == SplitSentences(text).1
  {
    var (pieces, rest) := SplitSentences(text);
    PackLongInvariant(text, maxLen, pieces, rest, |pieces|);
    assert pieces[..|pieces|] == pieces;
    PackDone(text, maxLen, pieces, rest);
    FinishJoined(text, maxLen, Pack(text, maxLen, pieces), rest);
    FinishLocated(text, maxLen, Pack(text, maxLen, pieces), rest);
    FinishLong(text, maxLen, pieces, rest, Pack(text, maxLen, pieces));
    Finish(text, maxLen, Pack(text, maxLen, pieces), rest)
  }

  /** A located chunk list that rebuilds `text` places every chunk at its own
      text: `text[offset:offset+len(chunk)] == chunk`. */
  lemma ChunksLocate(text: string, cs: seq<Chunk>, k: nat)
    requires Joined(cs) == text && Located(cs)
    requires k < |cs|
    ensures 0 <= cs[k].offset && cs[k].offset + |cs[k].text| <= |text|
    ensures text[cs[k].offset..cs[k].offset + |cs[k].text|] == cs[k].text
  {
    LocatedAt(cs, k);
  }

  /** One span the recognizer reports inside a chunk, relative to the chunk,
      with `group`, the label string the recognizer reported it under. */
  datatype Found = Found(group: string, start: nat, end: nat, text: string)

  /** The semantic recognizer, already configured with the requested labels:
      the spans it finds in a chunk, label group after label group, or `None`
      when the model raises. */
  type Recognizer = string -> Option<seq<Found>>

  /** Chunk-relative spans moved onto the whole text (`item['start'] + chunk_offset`).
      The label is kept as the string the recognizer reported; `ParseLabel`
      reads it exactly as the service's string comparisons do. */
  function Shift(fs: seq<Found>, offset: nat): (r: seq<Entity>)
    ensures |r| == |fs|
    ensures forall k :: 0 <= k < |fs| ==>
              r[k] == Entity(ParseLabel(fs[k].group), fs[k].start + offset, fs[k].end + offset, fs[k].text, TaskflowChunk)
  {
    if fs == [] then []
    else Shift(fs[..|fs| - 1], offset) + [var f := fs[|fs| - 1]; Entity(ParseLabel(f.group), f.start + offset, f.end + offset, f.text, TaskflowChunk)]
  }

  /** The `try` block over all chunks: blank chunks are skipped, and a
      recognizer failure on any chunk loses everything. */
  function RecognizeChunks(cs: seq<Chunk>, rec: Recognizer, cc: CharTests): Option<seq<Entity>>
    requires Located(cs)
  {
    if cs == [] then Some([])
    else
      var last := cs[|cs| - 1];
      match RecognizeChunks(cs[..|cs| - 1], rec, cc)
      case None => None
      case Some(es) =>
        if IsBlank(cc, last.text) then Some(es)
        else
          match rec(last.text)
          case None => None
          case Some(fs) => Some(es + Shift(fs, last.offset))
  }

  /** `get_taskflow_entities(text, labels, max_chunk_len)`. */
  function GetTaskflowEntities(text: string, labels: seq<Label>, maxLen: int, rec: Recognizer, cc: CharTests): seq<Entity>
  {
    if labels == [] then []
    else
      match RecognizeChunks(SplitIntoChunks(text, maxLen), rec, cc)
      case None => []
      case Some(es) => es
  }

  /** The recognizer reports spans that really hold the reported text. */
  predicate Honest(rec: Recognizer, chunk: string)
  {
    rec(chunk).Some? ==>
      forall f :: f in rec(chunk).value ==> f.start <= f.end <= |chunk| && chunk[f.start..f.end] == f.text
  }

  /** A span that is right within a chunk is right within any text that
      continues `prefix` with that chunk, once shifted by `|prefix|`. */
  lemma ShiftLocates(prefix: string, chunk: string, fs: seq<Found>, e: Entity)
    requires forall f :: f in fs ==> f.start <= f.end <= |chunk| && chunk[f.start..f.end] == f.text
    requires e in Shift(fs, |prefix|)
    ensures e.start <= e.end <= |prefix + chunk| && (prefix + chunk)[e.start..e.end] == e.text
  {
    hide Shift;
    var k :| 0 <= k < |fs| && e == Shift(fs, |prefix|)[k];
    var f := fs[k];
    assert f in fs;
    SliceOfSecond(prefix, chunk, f.start, f.end);
  }

  /** The result over `cs` is the result over all but its last chunk, plus
      the shifted spans of the last one. */
  lemma RecognizeLast(cs: seq<Chunk>, rec: Recognizer, cc: CharTests)
    requires Located(cs) && cs != []
    ensures var r := RecognizeChunks(cs, rec, cc);
      var init := cs[..|cs| - 1];
      var last := cs[|cs| - 1];
      r.Some? ==>
        && RecognizeChunks(init, rec, cc).Some?
        && (|| r.value == RecognizeChunks(init, rec, cc).value
            || (rec(last.text).Some? && r.value == RecognizeChunks(init, rec, cc).value + Shift(rec(last.text).value, last.offset)))
  {
  }

  /** Shifting by the chunk offset is exact: a span that is right within its
      chunk is right within the whole text. */
  lemma {:induction false} RecognizeLocates(cs: seq<Chunk>, rec: Recognizer, cc: CharTests)
    requires Located(cs)
    requires forall k :: 0 <= k < |cs| ==> Honest(rec, cs[k].text)
    ensures RecognizeChunks(cs, rec, cc).Some? ==>
      forall e :: e in RecognizeChunks(cs, rec, cc).value ==>
        e.start <= e.end <= |Joined(cs)| && Joined(cs)[e.start..e.end] == e.text
    decreases |cs|
  {
    if cs != [] {
      var init := cs[..|cs| - 1];
      var last := cs[|cs| - 1];
      assert forall k :: 0 <= k < |init| ==> init[k] == cs[k];
      RecognizeLocates(init, rec, cc);
      RecognizeLast(cs, rec, cc);
      AppendChunk(init, last);
      assert init + [last] == cs;
      assert last.offset == |Joined(init)|;
      var r := RecognizeChunks(cs, rec, cc);
      if r.Some? {
        var es := RecognizeChunks(init, rec, cc).value;
        forall e | e in r.value
          ensures e.start <= e.end <= |Joined(cs)| && Joined(cs)[e.start..e.end] == e.text
        {
          if e in es {
            assert Joined(cs)[e.start..e.end] == Joined(init)[e.start..e.end];
          } else {
            assert Honest(rec, last.text);
            ShiftLocates(Joined(init), last.text, rec(last.text).value, e);
          }
        }
      }
    }
  }

  /** Every entity the chunked recognizer returns sits at its own text in the
      input, and none survives a recognizer failure. */
  lemma TaskflowLocates(text: string, labels: seq<Label>, maxLen: int, rec: Recognizer, cc: CharTests)
    requires forall s :: Honest(rec, s)
    ensures forall e :: e in GetTaskflowEntities(text, labels, maxLen, rec, cc) ==>
              e.start <= e.end <= |text| && text[e.start..e.end] == e.text && e.how == TaskflowChunk
  {
    var cs := SplitIntoChunks(text, maxLen);
    RecognizeLocates(cs, rec, cc);
    RecognizeMethod(cs, rec, cc);
  }

  /** Every label `get_taskflow_entities` returns is canonical: a reported
      label string that spells a taxonomy label is that label. */
  lemma TaskflowCanonical(text: string, labels: seq<Label>, maxLen: int, rec: Recognizer, cc: CharTests)
    ensures forall e :: e in GetTaskflowEntities(text, labels, maxLen, rec, cc) ==> Canonical(e.category)
  {
    RecognizeMethod(SplitIntoChunks(text, maxLen), rec, cc);
  }

  lemma {:induction false} RecognizeMethod(cs: seq<Chunk>, rec: Recognizer, cc: CharTests)
    requires Located(cs)
    ensures RecognizeChunks(cs, rec, cc).Some? ==>
      forall e :: e in RecognizeChunks(cs, rec, cc).value ==> e.how == TaskflowChunk && Canonical(e.category)
    decreases |cs|
  {
    if cs != [] {
      RecognizeMethod(cs[..|cs| - 1], rec, cc);
    }
  }

  /** A failure of the recognizer on any non-blank chunk empties the result;
      blank chunks are never shown to it. */
  lemma {:induction false} RecognizeFails(cs: seq<Chunk>, rec: Recognizer, cc: CharTests, k: nat)
    requires Located(cs)
    requires k < |cs| && !IsBlank(cc, cs[k].text) && rec(cs[k].text).None?
    ensures RecognizeChunks(cs, rec, cc).None?
    decreases |cs|
  {
    if k < |cs| - 1 {
      var init := cs[..|cs| - 1];
      assert init[k] == cs[k];
      RecognizeFails(init, rec, cc, k);
    }
  }
}
