/** `_generate_replacements`: the edits that turn the extracted document text
    into the masked text. Equal-length texts are compared position by
    position; otherwise the entities' spans are compared one by one. The
    edits are then sorted and overlapping ones merged. */
module Replacements {
  import opened Seqs
  import opened Entities

  /** One edit: replace `[start, end)` of the original by `newText`. */
  datatype Rep = Rep(start: nat, end: nat, newText: string)

  function RepStart(r: Rep): int { r.start }

  /** The edits in order, each starting at or after the previous one's end. */
  predicate Separated(reps: seq<Rep>)
  {
    forall k :: 0 <= k < |reps| - 1 ==> reps[k].end <= reps[k + 1].start
  }

  /** The reference reading of a list of ordered edits: copy the original up
      to each edit, emit the edit's text, resume after it. */
  function PatchFrom(o: string, reps: seq<Rep>, prev: nat): string
    decreases |reps|
  {
    if reps == [] then Slice(o, prev, |o|)
    else Slice(o, prev, reps[0].start) + reps[0].newText + PatchFrom(o, reps[1..], reps[0].end)
  }

  function PatchText(o: string, reps: seq<Rep>): string
  {
    PatchFrom(o, reps, 0)
  }

  /** Position `p` lies inside edit `r`. */
  predicate Covers(r: Rep, p: int)
  {
    r.start <= p < r.end
  }

  /** No edit of `reps` covers `p`. */
  predicate Uncovered(reps: seq<Rep>, p: int)
  {
    forall r :: r in reps ==> !Covers(r, p)
  }

  /** Edits in order from `prev`, within `[0, n)`, none overlapping the next,
      each replacing its span by text of the same length. */
  predicate InOrder(reps: seq<Rep>, prev: nat, n: nat)
    decreases |reps|
  {
    reps == [] ||
    (&& prev <= reps[0].start <= reps[0].end <= n
     && |reps[0].newText| == reps[0].end - reps[0].start
     && InOrder(reps[1..], reps[0].end, n))
  }

  /** Edits in order from `prev` all start at or after `prev` and keep their
      length. */
  lemma {:induction false} InOrderAfter(reps: seq<Rep>, prev: nat, n: nat)
    requires InOrder(reps, prev, n)
    ensures forall r :: r in reps ==> prev <= r.start <= r.end <= n && |r.newText| == r.end - r.start
    decreases |reps|
  {
    if reps != [] {
      InOrderAfter(reps[1..], reps[0].end, n);
      assert forall r :: r in reps ==> r == reps[0] || r in reps[1..];
    }
  }

  /** Distinct edits in order do not overlap. */
  lemma {:induction false} InOrderApart(reps: seq<Rep>, prev: nat, n: nat)
    requires InOrder(reps, prev, n)
    ensures forall x, y :: x in reps && y in reps && x != y ==> x.end <= y.start || y.end <= x.start
    decreases |reps|
  {
    if reps != [] {
      InOrderApart(reps[1..], reps[0].end, n);
      InOrderAfter(reps[1..], reps[0].end, n);
      assert forall r :: r in reps ==> r == reps[0] || r in reps[1..];
    }
  }

  /** The `k`-th edit of a list in order lies after `prev`, within `[0, n)`,
      and keeps its length. */
  lemma {:induction false} InOrderAt(reps: seq<Rep>, prev: nat, n: nat, k: nat)
    requires InOrder(reps, prev, n) && k < |reps|
    ensures prev <= reps[k].start <= reps[k].end <= n && |reps[k].newText| == reps[k].end - reps[k].start
    decreases k
  {
    if k > 0 {
      InOrderAt(reps[1..], reps[0].end, n, k - 1);
    }
  }

  /** Edits in order keep the text's length. */
  lemma {:induction false} PatchLength(o: string, reps: seq<Rep>, prev: nat)
    requires prev <= |o| && InOrder(reps, prev, |o|)
    ensures |PatchFrom(o, reps, prev)| == |o| - prev
    decreases |reps|
  {
    if reps != [] {
      PatchLength(o, reps[1..], reps[0].end);
    }
  }

  /** The first edit's part of the patched text, spelled with plain slices. */
  lemma PatchUnfold(o: string, reps: seq<Rep>, prev: nat)
    requires prev <= |o| && InOrder(reps, prev, |o|) && reps != []
    ensures PatchFrom(o, reps, prev) == o[prev..reps[0].start] + reps[0].newText + PatchFrom(o, reps[1..], reps[0].end)
  {
  }

  /** One position of the patched text, read off the first edit. */
  lemma PatchFirst(o: string, reps: seq<Rep>, prev: nat, p: nat)
    requires prev <= |o| && InOrder(reps, prev, |o|) && reps != [] && prev <= p < |o|
    ensures |PatchFrom(o, reps, prev)| == |o| - prev
    ensures |PatchFrom(o, reps[1..], reps[0].end)| == |o| - reps[0].end
    ensures PatchFrom(o, reps, prev)[p - prev]
         == if p < reps[0].start then o[p]
            else if p < reps[0].end then reps[0].newText[p - reps[0].start]
            else PatchFrom(o, reps[1..], reps[0].end)[p - reps[0].end]
  {
    var r0 := reps[0];
    PatchLength(o, reps, prev);
    PatchLength(o, reps[1..], r0.end);
    PatchUnfold(o, reps, prev);
    PiecesAt(o, prev, r0.start, r0.end, r0.newText, PatchFrom(o, reps[1..], r0.end), p);
  }

  /** Past the first edit, the patched text continues as the rest of the
      edits applied from its end. */
  lemma PatchAfterFirst(o: string, reps: seq<Rep>, prev: nat, p: nat)
    requires prev <= |o| && InOrder(reps, prev, |o|) && reps != [] && reps[0].end <= p < |o|
    ensures |PatchFrom(o, reps, prev)| == |o| - prev
    ensures |PatchFrom(o, reps[1..], reps[0].end)| == |o| - reps[0].end
    ensures PatchFrom(o, reps, prev)[p - prev] == PatchFrom(o, reps[1..], reps[0].end)[p - reps[0].end]
  {
    PatchFirst(o, reps, prev, p);
  }

  /** A later edit starts after the first one ends. */
  lemma LaterEdit(reps: seq<Rep>, prev: nat, n: nat, k: nat)
    requires InOrder(reps, prev, n) && 0 < k < |reps|
    ensures reps[0].end <= reps[k].start && reps[1..][k - 1] == reps[k]
    ensures InOrder(reps[1..], reps[0].end, n)
  {
    InOrderAt(reps[1..], reps[0].end, n, k - 1);
  }

  /** A position inside the `k`-th edit holds the edit's text. */
  lemma {:induction false} PatchCovered(o: string, reps: seq<Rep>, prev: nat, k: nat, p: nat)
    requires prev <= |o| && InOrder(reps, prev, |o|)
    requires k < |reps| && Covers(reps[k], p)
    ensures |PatchFrom(o, reps, prev)| == |o| - prev
    ensures prev <= p < |o| && |reps[k].newText| == reps[k].end - reps[k].start
    ensures PatchFrom(o, reps, prev)[p - prev] == reps[k].newText[p - reps[k].start]
    decreases k
  {
    hide PatchFrom;
    InOrderAt(reps, prev, |o|, k);
    if k == 0 {
      PatchFirst(o, reps, prev, p);
    } else {
      LaterEdit(reps, prev, |o|, k);
      PatchAfterFirst(o, reps, prev, p);
      PatchCovered(o, reps[1..], reps[0].end, k - 1, p);
    }
  }

  /** A position outside every edit keeps its character. */
  lemma {:induction false} PatchUncovered(o: string, reps: seq<Rep>, prev: nat, p: nat)
    requires prev <= p < |o| && InOrder(reps, prev, |o|)
    requires Uncovered(reps, p)
    ensures |PatchFrom(o, reps, prev)| == |o| - prev
    ensures PatchFrom(o, reps, prev)[p - prev] == o[p]
    decreases |reps|
  {
    PatchLength(o, reps, prev);
    if reps != [] {
      hide PatchFrom;
      assert !Covers(reps[0], p);
      PatchFirst(o, reps, prev, p);
      if p >= reps[0].end {
        assert forall r :: r in reps[1..] ==> r in reps;
        PatchUncovered(o, reps[1..], reps[0].end, p);
      }
    }
  }

  /** For edits in order, the patched text has the original's length, holds
      each edit's text inside its span and the original elsewhere. */
  lemma PatchFromPointwise(o: string, reps: seq<Rep>, prev: nat)
    requires prev <= |o| && InOrder(reps, prev, |o|)
    ensures |PatchFrom(o, reps, prev)| == |o| - prev
    ensures forall r :: r in reps ==> prev <= r.start <= r.end <= |o| && |r.newText| == r.end - r.start
    ensures forall r, p :: r in reps && Covers(r, p) ==> PatchFrom(o, reps, prev)[p - prev] == r.newText[p - r.start]
    ensures forall p :: prev <= p < |o| && Uncovered(reps, p) ==> PatchFrom(o, reps, prev)[p - prev] == o[p]
  {
    PatchLength(o, reps, prev);
    InOrderAfter(reps, prev, |o|);
    forall r, p | r in reps && Covers(r, p)
      ensures PatchFrom(o, reps, prev)[p - prev] == r.newText[p - r.start]
    {
      var k :| 0 <= k < |reps| && reps[k] == r;
      PatchCovered(o, reps, prev, k, p);
    }
    forall p | prev <= p < |o| && Uncovered(reps, p)
      ensures PatchFrom(o, reps, prev)[p - prev] == o[p]
    {
      PatchUncovered(o, reps, prev, p);
    }
  }

  /** Edits separated and length-keeping, as a list, are in order. */
  lemma {:induction false} InOrderOf(reps: seq<Rep>, prev: nat, n: nat)
    requires forall k :: 0 <= k < |reps| ==> reps[k].start <= reps[k].end <= n && |reps[k].newText| == reps[k].end - reps[k].start
    requires Separated(reps)
    requires reps != [] ==> prev <= reps[0].start
    ensures InOrder(reps, prev, n)
    decreases |reps|
  {
    if reps != [] {
      InOrderOf(reps[1..], reps[0].end, n);
    }
  }

  // ---- the equal-length path ----

  /** The end of the run of differing positions that starts at `i` (the
      inner `while`). */
  function RunEnd(o: string, m: string, i: nat): (j: nat)
    requires |o| == |m| && i <= |o|
    ensures i <= j <= |o|
    ensures forall p :: i <= p < j ==> o[p] != m[p]
    ensures j == |o| || o[j] == m[j]
    decreases |o| - i
  {
    if i == |o| || o[i] == m[i] then i else RunEnd(o, m, i + 1)
  }

  /** The outer `while` from position `i`: one edit per run of differing
      positions, carrying the masked characters. */
  function Runs(o: string, m: string, i: nat): seq<Rep>
    requires |o| == |m| && i <= |o|
    decreases |o| - i
  {
    if i == |o| then []
    else if o[i] != m[i] then
      var j := RunEnd(o, m, i);
      [Rep(i, j, m[i..j])] + Runs(o, m, j)
    else Runs(o, m, i + 1)
  }

  /** A maximal run of differing positions between `o` and `m`, with the
      masked text as replacement. */
  predicate MaximalRun(o: string, m: string, r: Rep)
    requires |o| == |m|
  {
    && r.start < r.end <= |o|
    && r.newText == m[r.start..r.end]
    && (forall p :: r.start <= p < r.end ==> o[p] != m[p])
    && (r.end == |o| || o[r.end] == m[r.end])
    && (r.start == 0 || o[r.start - 1] == m[r.start - 1])
  }

  /** The runs found from `i` on are maximal (a run starting at `i` is
      maximal to the left when `i` is preceded by an equal position). */
  lemma {:induction false} RunsMaximal(o: string, m: string, i: nat)
    requires |o| == |m| && i <= |o|
    requires i == 0 || i == |o| || o[i - 1] == m[i - 1]
    ensures forall k :: 0 <= k < |Runs(o, m, i)| ==> i <= Runs(o, m, i)[k].start && MaximalRun(o, m, Runs(o, m, i)[k])
    decreases |o| - i
  {
    if i < |o| {
      if o[i] != m[i] {
        var j := RunEnd(o, m, i);
        if j < |o| {
          assert Runs(o, m, j) == Runs(o, m, j + 1);
          RunsMaximal(o, m, j + 1);
        }
      } else {
        RunsMaximal(o, m, i + 1);
      }
    }
  }

  /** Edits that start at or after `lo`, are non-empty, and are separated by
      at least one position. */
  ghost predicate Apart(rs: seq<Rep>, lo: nat)
  {
    && (forall k :: 0 <= k < |rs| ==> lo <= rs[k].start < rs[k].end)
    && (forall k :: 0 <= k < |rs| - 1 ==> rs[k].end < rs[k + 1].start)
  }

  lemma ApartCons(r: Rep, rest: seq<Rep>, lo: nat)
    requires lo <= r.start < r.end && Apart(rest, r.end + 1)
    ensures Apart([r] + rest, lo)
  {
    assert forall k :: 0 <= k < |rest| ==> ([r] + rest)[k + 1] == rest[k];
  }

  lemma ApartWeaken(rs: seq<Rep>, lo: nat)
    requires Apart(rs, lo + 1)
    ensures Apart(rs, lo)
  {
  }

  /** Consecutive runs are separated by at least one equal position. */
  lemma {:induction false} RunsApart(o: string, m: string, i: nat)
    requires |o| == |m| && i <= |o|
    ensures Apart(Runs(o, m, i), i)
    decreases |o| - i
  {
    RunsStep(o, m, i);
    hide Runs, RunEnd, Apart;
    if i == |o| {
      assert Runs(o, m, i) == [];
      ApartNil(i);
    } else if o[i] != m[i] {
      var j := RunEnd(o, m, i);
      RunsStep(o, m, j);
      if j < |o| {
        RunsApart(o, m, j + 1);
      } else {
        ApartNil(j + 1);
      }
      ApartCons(Rep(i, j, m[i..j]), Runs(o, m, j), i);
    } else {
      RunsApart(o, m, i + 1);
      ApartWeaken(Runs(o, m, i + 1), i);
    }
  }

  lemma ApartNil(lo: nat)
    ensures Apart([], lo)
  {
  }

  /** Every differing position from `i` on lies in a run. */
  lemma {:induction false} RunsCover(o: string, m: string, i: nat, p: nat)
    requires |o| == |m| && i <= p < |o| && o[p] != m[p]
    ensures exists k :: 0 <= k < |Runs(o, m, i)| && Runs(o, m, i)[k].start <= p < Runs(o, m, i)[k].end
    decreases |o| - i
  {
    if o[i] != m[i] {
      var j := RunEnd(o, m, i);
      if p >= j {
        RunsCover(o, m, j, p);
        var k :| 0 <= k < |Runs(o, m, j)| && Runs(o, m, j)[k].start <= p < Runs(o, m, j)[k].end;
        assert Runs(o, m, i)[k + 1] == Runs(o, m, j)[k];
      } else {
        assert Runs(o, m, i)[0].start <= p < Runs(o, m, i)[0].end;
      }
    } else {
      RunsCover(o, m, i + 1, p);
    }
  }

  /** Applying the runs found from `i` to the original, starting the copy at
      an earlier `prev` with equal text in between, rebuilds the masked text
      from `prev` on. */
  lemma {:induction false} RunsPatch(o: string, m: string, i: nat, prev: nat)
    requires |o| == |m| && prev <= i <= |o|
    requires forall p :: prev <= p < i ==> o[p] == m[p]
    ensures PatchFrom(o, Runs(o, m, i), prev) == m[prev..]
    decreases |o| - i
  {
    RunsStep(o, m, i);
    hide PatchFrom, Runs;
    if i == |o| {
      PatchNil(o, prev);
      assert o[prev..] == m[prev..];
    } else if o[i] != m[i] {
      var j := RunEnd(o, m, i);
      var r := Rep(i, j, m[i..j]);
      PatchCons(o, r, Runs(o, m, j), prev);
      RunsPatch(o, m, j, j);
      SameSlice(o, m, prev, i);
      SliceSplit(m, prev, i, j);
    } else {
      RunsPatch(o, m, i + 1, prev);
    }
  }

  /** Two texts that agree on `[a, b)` have equal slices there. */
  lemma SameSlice(o: string, m: string, a: nat, b: nat)
    requires a <= b <= |o| && b <= |m|
    requires forall p :: a <= p < b ==> o[p] == m[p]
    ensures o[a..b] == m[a..b]
  {
  }

  /** One step of the outer `while`. */
  lemma RunsStep(o: string, m: string, i: nat)
    requires |o| == |m| && i <= |o|
    ensures Runs(o, m, i)
         == if i == |o| then []
            else if o[i] != m[i] then [Rep(i, RunEnd(o, m, i), m[i..RunEnd(o, m, i)])] + Runs(o, m, RunEnd(o, m, i))
            else Runs(o, m, i + 1)
  {
  }

  /** With no edits left, the rest of the original is copied. */
  lemma PatchNil(o: string, prev: nat)
    requires prev <= |o|
    ensures PatchFrom(o, [], prev) == o[prev..]
  {
  }

  /** Patching with one more edit in front: the original up to it, its text,
      then the rest patched from its end. */
  lemma PatchCons(o: string, r: Rep, reps: seq<Rep>, prev: nat)
    requires prev <= r.start <= |o|
    ensures PatchFrom(o, [r] + reps, prev) == o[prev..r.start] + r.newText + PatchFrom(o, reps, r.end)
  {
    assert ([r] + reps)[1..] == reps;
  }

  /** The equal-length path: the maximal runs of differing positions. */
  function FastPath(o: string, m: string): seq<Rep>
    requires |o| == |m|
  {
    Runs(o, m, 0)
  }

  /** The runs are exactly the maximal differing runs: each one is, each
      differing position lies in one, and they are ordered and apart. */
  lemma FastPathRuns(o: string, m: string)
    requires |o| == |m|
    ensures forall k :: 0 <= k < |FastPath(o, m)| ==> MaximalRun(o, m, FastPath(o, m)[k])
    ensures forall k :: 0 <= k < |FastPath(o, m)| - 1 ==> FastPath(o, m)[k].end < FastPath(o, m)[k + 1].start
    ensures forall p :: 0 <= p < |o| && o[p] != m[p] ==>
              exists k :: 0 <= k < |FastPath(o, m)| && FastPath(o, m)[k].start <= p < FastPath(o, m)[k].end
  {
    RunsMaximal(o, m, 0);
    RunsApart(o, m, 0);
    var reps := FastPath(o, m);
    forall p | 0 <= p < |o| && o[p] != m[p]
      ensures exists k :: 0 <= k < |reps| && reps[k].start <= p < reps[k].end
    {
      RunsCover(o, m, 0, p);
      var k :| 0 <= k < |Runs(o, m, 0)| && Runs(o, m, 0)[k].start <= p < Runs(o, m, 0)[k].end;
      assert reps[k].start <= p < reps[k].end;
    }
  }

  /** Applying the runs to the original gives the masked text. */
  lemma FastPathRoundTrip(o: string, m: string)
    requires |o| == |m|
    ensures PatchText(o, FastPath(o, m)) == m
  {
    RunsPatch(o, m, 0, 0);
  }

  /** The runs are edits in order over the original. */
  lemma FastPathInOrder(o: string, m: string)
    requires |o| == |m|
    ensures InOrder(FastPath(o, m), 0, |o|)
  {
    var reps := FastPath(o, m);
    FastPathRuns(o, m);
    assert forall k :: 0 <= k < |reps| ==> MaximalRun(o, m, reps[k]);
    InOrderOf(reps, 0, |o|);
  }

  /** Identical texts give no edits, and only they do. */
  lemma FastPathEmpty(o: string, m: string)
    requires |o| == |m|
    ensures FastPath(o, m) == [] <==> o == m
  {
    if o != m {
      var p :| 0 <= p < |o| && o[p] != m[p];
      RunsCover(o, m, 0, p);
    } else {
      RunsSame(o, 0);
    }
  }

  /** A text compared with itself has no runs. */
  lemma {:induction false} RunsSame(o: string, i: nat)
    requires i <= |o|
    ensures Runs(o, o, i) == []
    decreases |o| - i
  {
    if i < |o| {
      RunsSame(o, i + 1);
    }
  }

  // ---- the entity path ----

  /** The edit for one entity, if its masked segment differs from the
      original one; entities starting beyond the masked text give none. */
  function EntityEdit(o: string, m: string, e: Entity): seq<Rep>
  {
    if e.start < |m| && Slice(m, e.start, Min(e.end, |m|)) != Slice(o, e.start, e.end)
    then [Rep(e.start, e.end, Slice(m, e.start, Min(e.end, |m|)))]
    else []
  }

  function EntityEdits(o: string, m: string, es: seq<Entity>): seq<Rep>
  {
    if es == [] then [] else EntityEdits(o, m, es[..|es| - 1]) + EntityEdit(o, m, es[|es| - 1])
  }

  /** The fallback for texts of different lengths: the entities sorted by
      start, each giving at most one edit. */
  function Fallback(o: string, m: string, es: seq<Entity>): seq<Rep>
  {
    EntityEdits(o, m, SortBy(es, StartKey))
  }

  /** An edit comes from an entity exactly when that entity starts within the
      masked text and its masked segment differs from the original one. */
  lemma {:induction false} EntityEditsFrom(o: string, m: string, es: seq<Entity>, r: Rep)
    ensures r in EntityEdits(o, m, es) <==>
      exists e :: e in es && e.start < |m| && Slice(m, e.start, Min(e.end, |m|)) != Slice(o, e.start, e.end)
                 && r == Rep(e.start, e.end, Slice(m, e.start, Min(e.end, |m|)))
    decreases |es|
  {
    if es != [] {
      var init := es[..|es| - 1];
      EntityEditsFrom(o, m, init, r);
      assert forall e :: e in es <==> e in init || e == es[|es| - 1];
    }
  }

  /** The edits of start-sorted entities are sorted by start. */
  lemma {:induction false} EntityEditsSorted(o: string, m: string, es: seq<Entity>)
    requires SortedBy(es, StartKey)
    ensures SortedBy(EntityEdits(o, m, es), RepStart)
    ensures forall k :: 0 <= k < |EntityEdits(o, m, es)| ==> exists e :: e in es && EntityEdits(o, m, es)[k].start == e.start
    decreases |es|
  {
    if es != [] {
      var init := es[..|es| - 1];
      var last := es[|es| - 1];
      EntityEditsSorted(o, m, init);
      var r := EntityEdits(o, m, es);
      var ri := EntityEdits(o, m, init);
      var t := EntityEdit(o, m, last);
      assert r == ri + t;
      assert |t| <= 1 && forall k :: 0 <= k < |t| ==> t[k].start == last.start;
      hide EntityEdits, EntityEdit;
      forall k | 0 <= k < |r|
        ensures exists e :: e in es && r[k].start == e.start
      {
        if k < |ri| {
          var e :| e in init && ri[k].start == e.start;
          assert e in es;
        } else {
          assert r[k] == t[k - |ri|];
        }
      }
      forall a, b | 0 <= a < b < |r|
        ensures RepStart(r[a]) <= RepStart(r[b])
      {
        if b >= |ri| {
          assert r[b] == t[b - |ri|];
          if a < |ri| {
            assert r[a] == ri[a];
            var e :| e in init && ri[a].start == e.start;
            var x :| 0 <= x < |init| && init[x] == e;
            assert StartKey(es[x]) <= StartKey(last);
          } else {
            assert false;
          }
        } else {
          assert r[a] == ri[a] && r[b] == ri[b];
        }
      }
    }
  }

  // ---- the merge step ----

  /** One iteration of the merge: an edit starting at or after the last
      edit's end is appended; an overlapping one extends the last edit to the
      larger end and replaces its text. */
  function MergeRepStep(ms: seq<Rep>, r: Rep): seq<Rep>
  {
    if ms == [] || r.start >= ms[|ms| - 1].end then ms + [r]
    else
      var last := ms[|ms| - 1];
      ms[..|ms| - 1] + [Rep(last.start, Max(last.end, r.end), r.newText)]
  }

  function MergeFold(reps: seq<Rep>): seq<Rep>
  {
    if reps == [] then [] else MergeRepStep(MergeFold(reps[..|reps| - 1]), reps[|reps| - 1])
  }

  /** `sorted(replacements, key=start)` followed by the merge loop. */
  function MergeReps(reps: seq<Rep>): seq<Rep>
  {
    MergeFold(SortBy(reps, RepStart))
  }

  /** After the merge every edit starts at or after the previous one's end. */
  lemma {:induction false} MergeFoldSeparated(reps: seq<Rep>)
    ensures Separated(MergeFold(reps))
    decreases |reps|
  {
    if reps != [] {
      MergeFoldSeparated(reps[..|reps| - 1]);
    }
  }

  /** One merge step either appends the edit or rewrites only the last
      merged edit, keeping its start. */
  lemma MergeStepShape(ms: seq<Rep>, r: Rep)
    ensures var ns := MergeRepStep(ms, r);
      || (ns == ms + [r])
      || (ms != [] && |ns| == |ms| && ns[..|ns| - 1] == ms[..|ms| - 1] && ns[|ns| - 1].start == ms[|ms| - 1].start)
  {
  }

  /** The last merged edit starts no later than the last input edit. */
  lemma {:induction false} MergeFoldLast(reps: seq<Rep>)
    requires reps != [] && SortedBy(reps, RepStart)
    ensures MergeFold(reps) != [] && MergeFold(reps)[|MergeFold(reps)| - 1].start <= reps[|reps| - 1].start
    decreases |reps|
  {
    var init := reps[..|reps| - 1];
    var r := reps[|reps| - 1];
    MergeStepShape(MergeFold(init), r);
    if |reps| > 1 {
      assert SortedBy(init, RepStart);
      MergeFoldLast(init);
      assert RepStart(reps[|reps| - 2]) <= RepStart(r);
      assert init[|init| - 1] == reps[|reps| - 2];
    }
  }

  /** Merging sorted edits keeps them sorted by start. */
  lemma {:induction false} MergeFoldSorted(reps: seq<Rep>)
    requires SortedBy(reps, RepStart)
    ensures SortedBy(MergeFold(reps), RepStart)
    decreases |reps|
  {
    if reps != [] {
      var init := reps[..|reps| - 1];
      var r := reps[|reps| - 1];
      assert SortedBy(init, RepStart);
      MergeFoldSorted(init);
      var ms := MergeFold(init);
      MergeStepShape(ms, r);
      if init != [] {
        MergeFoldLast(init);
        assert RepStart(init[|init| - 1]) <= RepStart(r);
        var ns := MergeRepStep(ms, r);
        forall a, b | 0 <= a < b < |ns|
          ensures RepStart(ns[a]) <= RepStart(ns[b])
        {
          if b < |ns| - 1 || |ns| == |ms| {
            assert RepStart(ns[a]) == RepStart(ms[a]);
            assert RepStart(ns[b]) == RepStart(ms[b]);
          } else {
            assert RepStart(ns[a]) == RepStart(ms[a]);
            assert RepStart(ms[a]) <= RepStart(ms[|ms| - 1]);
          }
        }
      }
    }
  }

  /** Sorted, separated edits pass the merge unchanged. */
  lemma {:induction false} MergeFoldKeeps(reps: seq<Rep>)
    requires Separated(reps)
    ensures MergeFold(reps) == reps
    decreases |reps|
  {
    if reps != [] {
      var init := reps[..|reps| - 1];
      MergeFoldKeeps(init);
      assert reps == init + [reps[|reps| - 1]];
    }
  }

  /** The merge output is sorted by start and each edit starts at or after
      the previous one's end. */
  lemma MergeRepsShape(reps: seq<Rep>)
    ensures SortedBy(MergeReps(reps), RepStart) && Separated(MergeReps(reps))
  {
    SortByProperties(reps, RepStart);
    MergeFoldSorted(SortBy(reps, RepStart));
    MergeFoldSeparated(SortBy(reps, RepStart));
  }

  /** Sorted, separated edits are left as they are by the whole merge step. */
  lemma MergeRepsKeeps(reps: seq<Rep>)
    requires SortedBy(reps, RepStart) && Separated(reps)
    ensures MergeReps(reps) == reps
  {
    SortByProperties(reps, RepStart);
    MergeFoldKeeps(reps);
  }

  /** Two overlapping edits become one: it keeps the first edit's start,
      reaches the larger end and carries the later edit's text. */
  lemma MergeOverlap(a: Rep, b: Rep)
    requires a.start <= b.start < a.end
    ensures MergeReps([a, b]) == [Rep(a.start, Max(a.end, b.end), b.newText)]
  {
    hide SortBy;
    var reps := [a, b];
    assert SortedBy(reps, RepStart);
    SortByProperties(reps, RepStart);
    assert reps[..1] == [a] && [a][..0] == [];
    assert MergeFold([a]) == [a];
    assert MergeFold(reps) == MergeRepStep([a], b);
  }

  /** The merged edits end no later than the input edits do. */
  lemma {:induction false} MergeFoldBounded(reps: seq<Rep>, bound: nat)
    requires forall x :: x in reps ==> x.end <= bound
    ensures forall k :: 0 <= k < |MergeFold(reps)| ==> MergeFold(reps)[k].end <= bound
    decreases |reps|
  {
    if reps != [] {
      var init := reps[..|reps| - 1];
      assert forall x :: x in init ==> x in reps;
      MergeFoldBounded(init, bound);
      assert reps[|reps| - 1] in reps;
      StepBounded(MergeFold(init), reps[|reps| - 1], bound);
    }
  }

  /** One merge step keeps the edits' ends within a bound both the edits
      and the new edit respect. */
  lemma StepBounded(ms: seq<Rep>, r: Rep, bound: nat)
    requires forall k :: 0 <= k < |ms| ==> ms[k].end <= bound
    requires r.end <= bound
    ensures forall k :: 0 <= k < |MergeRepStep(ms, r)| ==> MergeRepStep(ms, r)[k].end <= bound
  {
  }

  /** An edit that starts at or after the end of every earlier edit, in
      particular one that only touches the edit before it, is not merged:
      it is appended as an edit of its own and the earlier merged edits stay
      as they were. */
  lemma MergeFoldOpens(reps: seq<Rep>, r: Rep)
    requires forall x :: x in reps ==> x.end <= r.start
    ensures MergeFold(reps + [r]) == MergeFold(reps) + [r]
  {
    MergeFoldBounded(reps, r.start);
    assert (reps + [r])[..|reps|] == reps;
  }

  // ---- the whole generator ----

  /** `_generate_replacements(original_text, masked_text, entities)`. */
  function GenerateReplacements(o: string, m: string, es: seq<Entity>): seq<Rep>
  {
    var reps := if |o| == |m| then FastPath(o, m) else Fallback(o, m, es);
    if reps == [] then [] else MergeReps(reps)
  }

  /** For equal lengths the merge leaves the runs unchanged, so the edits
      rebuild the masked text and vanish exactly when nothing was masked. */
  lemma GenerateEqualLength(o: string, m: string, es: seq<Entity>)
    requires |o| == |m|
    ensures GenerateReplacements(o, m, es) == FastPath(o, m)
    ensures PatchText(o, GenerateReplacements(o, m, es)) == m
    ensures GenerateReplacements(o, m, es) == [] <==> o == m
  {
    var reps := FastPath(o, m);
    RunsApart(o, m, 0);
    assert SortedBy(reps, RepStart) by {
      forall a, b | 0 <= a < b < |reps|
        ensures RepStart(reps[a]) <= RepStart(reps[b])
      {
        RunsOrder(reps, a, b);
      }
    }
    if reps != [] {
      MergeRepsKeeps(reps);
    }
    FastPathRoundTrip(o, m);
    FastPathEmpty(o, m);
  }

  lemma {:induction false} RunsOrder(reps: seq<Rep>, a: nat, b: nat)
    requires forall k :: 0 <= k < |reps| ==> reps[k].start < reps[k].end
    requires forall k :: 0 <= k < |reps| - 1 ==> reps[k].end < reps[k + 1].start
    requires a < b < |reps|
    ensures reps[a].start < reps[b].start
    decreases b - a
  {
    if a + 1 < b {
      RunsOrder(reps, a + 1, b);
    }
  }

  /** For different lengths, every edit is the differing masked segment of
      some entity, and the edits come out sorted and separated. */
  lemma GenerateFallback(o: string, m: string, es: seq<Entity>, r: Rep)
    requires |o| != |m|
    ensures SortedBy(GenerateReplacements(o, m, es), RepStart) && Separated(GenerateReplacements(o, m, es))
    ensures r in Fallback(o, m, es) <==>
      exists e :: e in es && e.start < |m| && Slice(m, e.start, Min(e.end, |m|)) != Slice(o, e.start, e.end)
                 && r == Rep(e.start, e.end, Slice(m, e.start, Min(e.end, |m|)))
  {
    var sorted := SortBy(es, StartKey);
    SortByProperties(es, StartKey);
    EntityEditsFrom(o, m, sorted, r);
    assert forall e :: e in es <==> e in multiset(sorted);
    if Fallback(o, m, es) != [] {
      MergeRepsShape(Fallback(o, m, es));
    }
  }
}
