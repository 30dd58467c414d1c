/** The pattern detector (`get_regex_entities`): fixed-format candidates are
    taken in a fixed priority order, and a candidate of a lower-priority category
    is dropped when an interval already claimed fully contains it. The regular
    expressions themselves are not modelled: each category's `finditer` output is
    an input, a list of leftmost, non-overlapping matches. */
module RegexEntities {
  import opened Entities

  /** One `re.finditer` match: `m.start()`, `m.end()`, `m.group()`. */
  datatype Match = Match(start: nat, end: nat, text: string)

  /** The matches of each category's pattern over the same text. */
  datatype Candidates = Candidates(
    idCard: seq<Match>,
    creditCode: seq<Match>,
    mobile: seq<Match>,
    landline: seq<Match>,
    bankCard: seq<Match>,
    passport: seq<Match>,
    permit: seq<Match>,
    plate: seq<Match>)

  type Interval = (nat, nat)

  /** What `finditer` guarantees of one pattern's matches: non-empty, in text
      order, and non-overlapping. */
  predicate Separated(ms: seq<Match>)
  {
    && (forall k :: 0 <= k < |ms| ==> ms[k].start < ms[k].end)
    && (forall k :: 0 <= k < |ms| - 1 ==> ms[k].end <= ms[k + 1].start)
  }

  predicate WellFormed(c: Candidates)
  {
    Separated(c.creditCode) && Separated(c.mobile) && Separated(c.landline) && Separated(c.bankCard)
  }

  /** `any(s <= m.start() and m.end() <= e for s, e in occupied_spans)` */
  predicate Occupied(occ: set<Interval>, m: Match)
  {
    exists iv :: iv in occ && iv.0 <= m.start && m.end <= iv.1
  }

  function ToEntity(category: Label, m: Match): Entity
  {
    Entity(category, m.start, m.end, m.text, Regex)
  }

  function Emit(category: Label, ms: seq<Match>): (r: seq<Entity>)
    ensures |r| == |ms|
    ensures forall k :: 0 <= k < |ms| ==> r[k] == ToEntity(category, ms[k])
  {
    if ms == [] then [] else [ToEntity(category, ms[0])] + Emit(category, ms[1..])
  }

  function SpanSet(es: seq<Entity>): set<Interval>
  {
    set e | e in es :: (e.start, e.end)
  }

  /** The bank-card check: between 13 and 19 digit characters in the match. */
  predicate BankDigits(cc: CharTests, m: Match)
  {
    13 <= Count(m.text, cc.isDigit) <= 19
  }

  /** The extra test a match must pass before the occupancy check. */
  datatype Admission = AnyMatch | DigitCount(cc: CharTests)

  predicate Admits(a: Admission, m: Match)
  {
    match a
    case AnyMatch => true
    case DigitCount(cc) => BankDigits(cc, m)
  }

  /** One occupancy-checked category: a match passing `admit` is kept unless an
      occupied interval contains it, and a kept match claims its own span. */
  function Claim(category: Label, ms: seq<Match>, occ: set<Interval>, admit: Admission): (r: (seq<Entity>, set<Interval>))
    decreases |ms|
  {
    if ms == [] then ([], occ)
    else if !Admits(admit, ms[0]) || Occupied(occ, ms[0]) then Claim(category, ms[1..], occ, admit)
    else
      var rest := Claim(category, ms[1..], occ + {(ms[0].start, ms[0].end)}, admit);
      ([ToEntity(category, ms[0])] + rest.0, rest.1)
  }

  /** The claimed set grows by exactly the spans kept. */
  lemma {:induction false} ClaimOccupies(category: Label, ms: seq<Match>, occ: set<Interval>, admit: Admission)
    ensures Claim(category, ms, occ, admit).1 == occ + SpanSet(Claim(category, ms, occ, admit).0)
    decreases |ms|
  {
    if ms != [] {
      if !Admits(admit, ms[0]) || Occupied(occ, ms[0]) {
        ClaimOccupies(category, ms[1..], occ, admit);
      } else {
        var occ' := occ + {(ms[0].start, ms[0].end)};
        ClaimOccupies(category, ms[1..], occ', admit);
        var r := Claim(category, ms[1..], occ', admit);
        assert SpanSet([ToEntity(category, ms[0])] + r.0) == {(ms[0].start, ms[0].end)} + SpanSet(r.0);
      }
    }
  }

  /** Every kept entity carries this category and comes from one of the matches. */
  lemma {:induction false} ClaimShape(category: Label, ms: seq<Match>, occ: set<Interval>, admit: Admission)
    ensures forall e :: e in Claim(category, ms, occ, admit).0 ==>
              e.category == category && exists k :: 0 <= k < |ms| && e == ToEntity(category, ms[k])
    decreases |ms|
  {
    if ms != [] {
      var occ' := if !Admits(admit, ms[0]) || Occupied(occ, ms[0]) then occ else occ + {(ms[0].start, ms[0].end)};
      ClaimShape(category, ms[1..], occ', admit);
      var r := Claim(category, ms[1..], occ', admit);
      forall e | e in r.0
        ensures exists k :: 0 <= k < |ms| && e == ToEntity(category, ms[k])
      {
        var k :| 0 <= k < |ms[1..]| && e == ToEntity(category, ms[1..][k]);
        assert e == ToEntity(category, ms[k + 1]);
      }
    }
  }

  /** For `finditer`-shaped matches, a match is kept exactly when it passes
      `admit` and no interval occupied BEFORE this category contains it: the
      spans this category claims itself never contain a later match. */
  lemma {:induction false} ClaimKeeps(category: Label, ms: seq<Match>, occ: set<Interval>, admit: Admission)
    requires Separated(ms)
    ensures forall k :: 0 <= k < |ms| ==>
              (ToEntity(category, ms[k]) in Claim(category, ms, occ, admit).0 <==> Admits(admit, ms[k]) && !Occupied(occ, ms[k]))
    decreases |ms|
  {
    hide Claim, Separated, Occupied, Admits;
    if ms != [] {
      var tail := ms[1..];
      SeparatedTail(ms);
      var keep := Admits(admit, ms[0]) && !Occupied(occ, ms[0]);
      var occ' := if keep then occ + {(ms[0].start, ms[0].end)} else occ;
      ClaimUnfold(category, ms, occ, admit);
      ClaimKeeps(category, tail, occ', admit);
      ClaimHeadNotInTail(category, ms, occ', admit);
      var r := Claim(category, tail, occ', admit);
      forall k | 0 <= k < |ms|
        ensures ToEntity(category, ms[k]) in Claim(category, ms, occ, admit).0 <==> Admits(admit, ms[k]) && !Occupied(occ, ms[k])
      {
        if k > 0 {
          assert tail[k - 1] == ms[k];
          SeparatedOrder(ms, 0, k);
          if keep {
            OccupiedAfter(occ, ms, k);
          }
          assert ToEntity(category, ms[k]) != ToEntity(category, ms[0]);
        }
      }
    }
  }

  lemma SeparatedTail(ms: seq<Match>)
    requires Separated(ms) && ms != []
    ensures Separated(ms[1..])
  {
  }

  /** One step of the claim loop. */
  lemma ClaimUnfold(category: Label, ms: seq<Match>, occ: set<Interval>, admit: Admission)
    requires ms != []
    ensures var keep := Admits(admit, ms[0]) && !Occupied(occ, ms[0]);
      var occ' := if keep then occ + {(ms[0].start, ms[0].end)} else occ;
      Claim(category, ms, occ, admit).0 == (if keep then [ToEntity(category, ms[0])] else []) + Claim(category, ms[1..], occ', admit).0
  {
  }

  /** The first match is never kept again by the rest of a separated list. */
  lemma ClaimHeadNotInTail(category: Label, ms: seq<Match>, occ: set<Interval>, admit: Admission)
    requires Separated(ms) && ms != []
    ensures ToEntity(category, ms[0]) !in Claim(category, ms[1..], occ, admit).0
  {
    ClaimShape(category, ms[1..], occ, admit);
    forall j | 0 <= j < |ms[1..]|
      ensures ms[1..][j].start > ms[0].start
    {
      SeparatedOrder(ms, 0, j + 1);
    }
  }

  /** The span of the first match never contains a later one. */
  lemma OccupiedAfter(occ: set<Interval>, ms: seq<Match>, k: nat)
    requires Separated(ms) && 0 < k < |ms|
    ensures Occupied(occ + {(ms[0].start, ms[0].end)}, ms[k]) <==> Occupied(occ, ms[k])
  {
    SeparatedOrder(ms, 0, k);
    if Occupied(occ + {(ms[0].start, ms[0].end)}, ms[k]) {
      var iv :| iv in occ + {(ms[0].start, ms[0].end)} && iv.0 <= ms[k].start && ms[k].end <= iv.1;
      assert iv in occ;
    }
  }

  /** In a separated list, an earlier match ends no later than a later one starts. */
  lemma {:induction false} SeparatedOrder(ms: seq<Match>, i: nat, j: nat)
    requires Separated(ms)
    requires i < j < |ms|
    ensures ms[i].end <= ms[j].start
    decreases j - i
  {
    if i + 1 < j {
      SeparatedOrder(ms, i + 1, j);
    }
  }

  /** The detector's running state: `entities` and `occupied_spans`. */
  datatype Scan = Scan(entities: seq<Entity>, occupied: set<Interval>)

  /** A category whose matches are all emitted, claiming their spans when
      `occupies` holds (national ID) and leaving the occupied set alone
      otherwise (passport, permit, plate). */
  function Unchecked(st: Scan, labels: seq<Label>, category: Label, ms: seq<Match>, occupies: bool): Scan
  {
    if category !in labels then st
    else
      var es := Emit(category, ms);
      Scan(st.entities + es, if occupies then st.occupied + SpanSet(es) else st.occupied)
  }

  /** An occupancy-checked category (credit code, mobile, landline, bank card). */
  function Checked(st: Scan, labels: seq<Label>, category: Label, ms: seq<Match>, admit: Admission): Scan
  {
    if category !in labels then st
    else
      var r := Claim(category, ms, st.occupied, admit);
      Scan(st.entities + r.0, r.1)
  }

  /** How a stage treats its matches. */
  datatype Kind = Unconditional(occupies: bool) | Conditional(admit: Admission)

  /** One `if "<label>" in labels:` block of the detector. */
  datatype Stage = Stage(category: Label, kind: Kind, matches: seq<Match>)

  function Step(st: Scan, labels: seq<Label>, s: Stage): Scan
  {
    match s.kind
    case Unconditional(occupies) => Unchecked(st, labels, s.category, s.matches, occupies)
    case Conditional(admit) => Checked(st, labels, s.category, s.matches, admit)
  }

  /** The detector's blocks in source order: national ID (claims its spans),
      the four occupancy-checked categories, then passport, permit and plate,
      which neither check nor claim. */
  function Stages(c: Candidates, cc: CharTests): seq<Stage>
  {
    [ Stage(IdCard, Unconditional(true), c.idCard),
      Stage(CreditCode, Conditional(AnyMatch), c.creditCode),
      Stage(Mobile, Conditional(AnyMatch), c.mobile),
      Stage(Landline, Conditional(AnyMatch), c.landline),
      Stage(BankCard, Conditional(DigitCount(cc)), c.bankCard),
      Stage(Passport, Unconditional(false), c.passport),
      Stage(Permit, Unconditional(false), c.permit),
      Stage(Plate, Unconditional(false), c.plate) ]
  }

  /** The state after running `ss` in order from an empty state. */
  function Run(labels: seq<Label>, ss: seq<Stage>): Scan
  {
    if ss == [] then Scan([], {}) else Step(Run(labels, ss[..|ss| - 1]), labels, ss[|ss| - 1])
  }

  /** `get_regex_entities`. */
  function GetRegexEntities(labels: seq<Label>, c: Candidates, cc: CharTests): seq<Entity>
  {
    Run(labels, Stages(c, cc)).entities
  }

  lemma SpanSetJoin(a: seq<Entity>, b: seq<Entity>)
    ensures SpanSet(a + b) == SpanSet(a) + SpanSet(b)
  {
  }

  /** A claimed interval contains the match exactly when an entity does. */
  lemma OccupiedBySpans(es: seq<Entity>, m: Match)
    ensures Occupied(SpanSet(es), m) <==> exists e :: e in es && e.start <= m.start && m.end <= e.end
  {
    if Occupied(SpanSet(es), m) {
      var iv :| iv in SpanSet(es) && iv.0 <= m.start && m.end <= iv.1;
      var e :| e in es && (e.start, e.end) == iv;
    }
    if exists e :: e in es && e.start <= m.start && m.end <= e.end {
      var e :| e in es && e.start <= m.start && m.end <= e.end;
      assert (e.start, e.end) in SpanSet(es);
    }
  }

}

module RegexEntitiesSpec {
  import opened Entities
  import opened RegexEntities

  /** The position of a category in the detector's order: national ID first,
      then credit code, mobile, landline and bank card (the occupancy-checked
      categories), then passport, permit and plate; anything else comes last. */
  function Rank(l: Label): nat
  {
    match l
    case IdCard => 0
    case CreditCode => 1
    case Mobile => 2
    case Landline => 3
    case BankCard => 4
    case Passport => 5
    case Permit => 6
    case Plate => 7
    case _ => 8
  }

  /** Some entity in `r` of a category ranked before `rank` fully contains the match. */
  predicate ClaimedBefore(r: seq<Entity>, rank: nat, m: Match)
  {
    exists e :: e in r && Rank(e.category) < rank && e.start <= m.start && m.end <= e.end
  }

  predicate RankIn(es: seq<Entity>, lo: nat, hi: nat)
  {
    forall e :: e in es ==> lo <= Rank(e.category) < hi
  }

  /** While only occupancy categories have run, the occupied set is exactly
      the span set of the entities found so far, all ranked before `rank`. */
  predicate Settled(st: Scan, rank: nat)
  {
    RankIn(st.entities, 0, rank) && st.occupied == SpanSet(st.entities)
  }

  /** `st'` is `st` with entities ranked in `[lo, hi)` appended. */
  predicate Extends(st: Scan, st': Scan, lo: nat, hi: nat)
  {
    && |st.entities| <= |st'.entities|
    && st'.entities[..|st.entities|] == st.entities
    && RankIn(st'.entities[|st.entities|..], lo, hi)
  }

  /** Stage `i` handles the category of rank `i`. */
  predicate Ordered(ss: seq<Stage>)
  {
    forall i :: 0 <= i < |ss| ==> Rank(ss[i].category) == i
  }

  /** A stage that records the spans of what it emits. */
  predicate Occupying(s: Stage)
  {
    s.kind.Conditional? || s.kind.occupies
  }

  /** Every occupancy-checked stage works on `finditer`-shaped matches. */
  predicate StagesSeparated(ss: seq<Stage>)
  {
    forall i :: 0 <= i < |ss| && ss[i].kind.Conditional? ==> Separated(ss[i].matches)
  }

  /** The detector's own stage list is ordered by rank, its first five stages
      record spans and the last three do not. */
  lemma StagesShape(c: Candidates, cc: CharTests)
    requires WellFormed(c)
    ensures var ss := Stages(c, cc);
      && |ss| == 8 && Ordered(ss) && StagesSeparated(ss)
      && (forall i :: 0 <= i < 5 ==> Occupying(ss[i]))
      && (forall i :: 5 <= i < 8 ==> ss[i].kind == Unconditional(false))
  {
  }

  lemma EmitCategory(category: Label, ms: seq<Match>)
    ensures RankIn(Emit(category, ms), Rank(category), Rank(category) + 1)
    ensures forall m :: m in ms ==> ToEntity(category, m) in Emit(category, ms)
  {
    var es := Emit(category, ms);
    forall m | m in ms
      ensures ToEntity(category, m) in es
    {
      var k :| 0 <= k < |ms| && ms[k] == m;
      assert es[k] == ToEntity(category, m);
    }
  }

  /** A checked stage keeps a match exactly when its label was requested, it
      passes `admit`, and no entity found before it contains it. */
  lemma CheckedStep(st: Scan, labels: seq<Label>, category: Label, ms: seq<Match>, admit: Admission)
    requires Separated(ms)
    requires Settled(st, Rank(category))
    ensures var st' := Checked(st, labels, category, ms, admit);
      && Settled(st', Rank(category) + 1)
      && Extends(st, st', Rank(category), Rank(category) + 1)
      && forall m :: m in ms ==>
           (ToEntity(category, m) in st'.entities <==>
              category in labels && Admits(admit, m) && !ClaimedBefore(st.entities, Rank(category), m))
  {
    var st' := Checked(st, labels, category, ms, admit);
    if category in labels {
      ClaimOccupies(category, ms, st.occupied, admit);
      ClaimShape(category, ms, st.occupied, admit);
      ClaimKeeps(category, ms, st.occupied, admit);
      var kept := Claim(category, ms, st.occupied, admit).0;
      assert st'.entities == st.entities + kept;
      SpanSetJoin(st.entities, kept);
      forall m | m in ms
        ensures ToEntity(category, m) in st'.entities <==> Admits(admit, m) && !ClaimedBefore(st.entities, Rank(category), m)
      {
        var k :| 0 <= k < |ms| && ms[k] == m;
        OccupiedBySpans(st.entities, m);
      }
    } else {
      assert st'.entities == st.entities + [];
    }
  }

  lemma UncheckedStep(st: Scan, labels: seq<Label>, category: Label, ms: seq<Match>, occupies: bool)
    ensures var st' := Unchecked(st, labels, category, ms, occupies);
      && Extends(st, st', Rank(category), Rank(category) + 1)
      && (Settled(st, Rank(category)) && occupies ==> Settled(st', Rank(category) + 1))
      && (!occupies ==> st'.occupied == st.occupied)
      && forall m :: m in ms && category in labels ==> ToEntity(category, m) in st'.entities
  {
    var st' := Unchecked(st, labels, category, ms, occupies);
    EmitCategory(category, ms);
    if category in labels {
      SpanSetJoin(st.entities, Emit(category, ms));
    } else {
      assert st'.entities == st.entities + [];
    }
  }

  /** Any stage appends only entities of its own category. */
  lemma StepExtends(st: Scan, labels: seq<Label>, s: Stage)
    ensures Extends(st, Step(st, labels, s), Rank(s.category), Rank(s.category) + 1)
  {
    match s.kind
    case Unconditional(occupies) =>
      UncheckedStep(st, labels, s.category, s.matches, occupies);
    case Conditional(admit) =>
      var st' := Step(st, labels, s);
      if s.category in labels {
        var kept := Claim(s.category, s.matches, st.occupied, admit).0;
        ClaimShape(s.category, s.matches, st.occupied, admit);
        assert st'.entities == st.entities + kept;
      } else {
        assert st'.entities == st.entities + [];
      }
  }

  lemma ExtendsTrans(a: Scan, b: Scan, c: Scan, r1: nat, r2: nat, h1: nat, h2: nat)
    requires Extends(a, b, r1, h1) && Extends(b, c, r2, h2) && r1 <= r2 && h1 <= h2
    ensures Extends(a, c, r1, h2)
  {
    var m1 := b.entities[|a.entities|..];
    assert b.entities == a.entities + m1;
    var m2 := c.entities[|b.entities|..];
    assert c.entities == b.entities + m2;
    assert c.entities == a.entities + (m1 + m2);
  }

  /** Appending entities ranked below `hi` to entities ranked below `hi`
      keeps every entity ranked below `hi`. */
  lemma ExtendsRanks(st: Scan, st': Scan, lo: nat, hi: nat)
    requires RankIn(st.entities, 0, hi) && Extends(st, st', lo, hi)
    ensures RankIn(st'.entities, 0, hi)
  {
    var more := st'.entities[|st.entities|..];
    assert st'.entities == st.entities + more;
  }

  /** Entities appended after a category's stage neither hold that category
      nor change which matches earlier categories claim. */
  lemma ExtendsPreserves(st: Scan, st': Scan, x: Label, m: Match, hi: nat)
    requires Extends(st, st', Rank(x) + 1, hi)
    ensures ToEntity(x, m) in st'.entities <==> ToEntity(x, m) in st.entities
    ensures ClaimedBefore(st'.entities, Rank(x), m) <==> ClaimedBefore(st.entities, Rank(x), m)
  {
    var more := st'.entities[|st.entities|..];
    assert st'.entities == st.entities + more;
    assert ToEntity(x, m) !in more;
  }

  /** Appending entities ranked at least `rank` changes nothing about which
      matches the entities ranked before `rank` claim. */
  lemma ClaimedBeforeStable(st: Scan, st': Scan, rank: nat, m: Match, hi: nat)
    requires Extends(st, st', rank, hi)
    ensures ClaimedBefore(st'.entities, rank, m) <==> ClaimedBefore(st.entities, rank, m)
  {
    var more := st'.entities[|st.entities|..];
    assert st'.entities == st.entities + more;
  }

  /** Running one more stage is one more `Step`. */
  lemma RunPrefix(labels: seq<Label>, ss: seq<Stage>, k: nat)
    requires k < |ss|
    ensures Run(labels, ss[..k + 1]) == Step(Run(labels, ss[..k]), labels, ss[k])
  {
    assert ss[..k + 1][..k] == ss[..k];
  }

  /** After the first `k` stages every entity is ranked below `k`. */
  lemma {:induction false} RunRanks(labels: seq<Label>, ss: seq<Stage>, k: nat)
    requires Ordered(ss) && k <= |ss|
    ensures RankIn(Run(labels, ss[..k]).entities, 0, k)
  {
    if k > 0 {
      RunRanks(labels, ss, k - 1);
      RunPrefix(labels, ss, k - 1);
      StepExtends(Run(labels, ss[..k - 1]), labels, ss[k - 1]);
      ExtendsRanks(Run(labels, ss[..k - 1]), Run(labels, ss[..k]), k - 1, k);
    }
  }

  /** While every stage so far records its spans, the state is settled. */
  lemma {:induction false} RunSettled(labels: seq<Label>, ss: seq<Stage>, k: nat)
    requires Ordered(ss) && StagesSeparated(ss) && k <= |ss|
    requires forall i :: 0 <= i < k ==> Occupying(ss[i])
    ensures Settled(Run(labels, ss[..k]), k)
  {
    if k > 0 {
      RunSettled(labels, ss, k - 1);
      RunPrefix(labels, ss, k - 1);
      var s := ss[k - 1];
      assert Occupying(s);
      match s.kind
      case Unconditional(occupies) =>
        UncheckedStep(Run(labels, ss[..k - 1]), labels, s.category, s.matches, occupies);
      case Conditional(admit) =>
        CheckedStep(Run(labels, ss[..k - 1]), labels, s.category, s.matches, admit);
    }
  }

  /** Stages `k` to `j` only append entities ranked in `[k, j)`. */
  lemma {:induction false} RunTail(labels: seq<Label>, ss: seq<Stage>, k: nat, j: nat)
    requires Ordered(ss) && k <= j <= |ss|
    ensures Extends(Run(labels, ss[..k]), Run(labels, ss[..j]), k, j)
    decreases j - k
  {
    if k == j {
      var st := Run(labels, ss[..k]);
      assert st.entities[|st.entities|..] == [];
    } else {
      RunTail(labels, ss, k, j - 1);
      RunPrefix(labels, ss, j - 1);
      StepExtends(Run(labels, ss[..j - 1]), labels, ss[j - 1]);
      ExtendsTrans(Run(labels, ss[..k]), Run(labels, ss[..j - 1]), Run(labels, ss[..j]), k, j - 1, j - 1, j);
    }
  }

  /** An occupancy-checked stage keeps a match exactly when its label was
      requested, the match passes the stage's test, and no entity of an
      earlier stage in the final result fully contains it. */
  lemma CheckedStage(labels: seq<Label>, ss: seq<Stage>, k: nat, m: Match)
    requires Ordered(ss) && StagesSeparated(ss) && k < |ss|
    requires forall i :: 0 <= i < k ==> Occupying(ss[i])
    requires ss[k].kind.Conditional? && m in ss[k].matches
    ensures var r := Run(labels, ss).entities;
      ToEntity(ss[k].category, m) in r <==>
        ss[k].category in labels && Admits(ss[k].kind.admit, m) && !ClaimedBefore(r, k, m)
  {
    var before := Run(labels, ss[..k]);
    var after := Run(labels, ss[..k + 1]);
    RunSettled(labels, ss, k);
    RunPrefix(labels, ss, k);
    CheckedStep(before, labels, ss[k].category, ss[k].matches, ss[k].kind.admit);
    RunTail(labels, ss, k + 1, |ss|);
    assert ss[..|ss|] == ss;
    ExtendsPreserves(after, Run(labels, ss), ss[k].category, m, |ss|);
    ClaimedBeforeStable(before, after, k, m, k + 1);
  }

  /** A stage without the occupancy check emits every match exactly when its
      label was requested, whatever earlier stages found. */
  lemma UncheckedStage(labels: seq<Label>, ss: seq<Stage>, k: nat, m: Match)
    requires Ordered(ss) && k < |ss|
    requires ss[k].kind.Unconditional? && m in ss[k].matches
    ensures ToEntity(ss[k].category, m) in Run(labels, ss).entities <==> ss[k].category in labels
  {
    var before := Run(labels, ss[..k]);
    var after := Run(labels, ss[..k + 1]);
    RunRanks(labels, ss, k);
    RunPrefix(labels, ss, k);
    UncheckedStep(before, labels, ss[k].category, ss[k].matches, ss[k].kind.occupies);
    assert ToEntity(ss[k].category, m) !in before.entities;
    RunTail(labels, ss, k + 1, |ss|);
    assert ss[..|ss|] == ss;
    ExtendsPreserves(after, Run(labels, ss), ss[k].category, m, |ss|);
  }

  /** Stages that do not record spans leave the occupied set alone. */
  lemma {:induction false} BypassKeepsOccupied(labels: seq<Label>, ss: seq<Stage>, k: nat, j: nat)
    requires k <= j <= |ss|
    requires forall i :: k <= i < j ==> ss[i].kind == Unconditional(false)
    ensures Run(labels, ss[..j]).occupied == Run(labels, ss[..k]).occupied
    decreases j - k
  {
    if k < j {
      BypassKeepsOccupied(labels, ss, k, j - 1);
      RunPrefix(labels, ss, j - 1);
      UncheckedStep(Run(labels, ss[..j - 1]), labels, ss[j - 1].category, ss[j - 1].matches, false);
    }
  }

  /** National-ID matches are never filtered: each is emitted exactly when the
      label was requested. */
  lemma IdCardNeverFiltered(labels: seq<Label>, c: Candidates, cc: CharTests, m: Match)
    requires WellFormed(c)
    requires m in c.idCard
    ensures ToEntity(IdCard, m) in GetRegexEntities(labels, c, cc) <==> IdCard in labels
  {
    StagesShape(c, cc);
    UncheckedStage(labels, Stages(c, cc), 0, m);
  }

  /** A credit-code match survives exactly when no emitted national ID fully
      contains it; a partial overlap does not drop it. */
  lemma CreditCodeOccupancy(labels: seq<Label>, c: Candidates, cc: CharTests, m: Match)
    requires WellFormed(c)
    requires m in c.creditCode
    ensures var r := GetRegexEntities(labels, c, cc);
      ToEntity(CreditCode, m) in r <==> CreditCode in labels && !ClaimedBefore(r, Rank(CreditCode), m)
  {
    StagesShape(c, cc);
    CheckedStage(labels, Stages(c, cc), 1, m);
  }

  /** A mobile match survives exactly when no emitted national ID or credit
      code fully contains it. */
  lemma MobileOccupancy(labels: seq<Label>, c: Candidates, cc: CharTests, m: Match)
    requires WellFormed(c)
    requires m in c.mobile
    ensures var r := GetRegexEntities(labels, c, cc);
      ToEntity(Mobile, m) in r <==> Mobile in labels && !ClaimedBefore(r, Rank(Mobile), m)
  {
    StagesShape(c, cc);
    CheckedStage(labels, Stages(c, cc), 2, m);
  }

  /** A landline match survives exactly when no emitted national ID, credit
      code or mobile number fully contains it. */
  lemma LandlineOccupancy(labels: seq<Label>, c: Candidates, cc: CharTests, m: Match)
    requires WellFormed(c)
    requires m in c.landline
    ensures var r := GetRegexEntities(labels, c, cc);
      ToEntity(Landline, m) in r <==> Landline in labels && !ClaimedBefore(r, Rank(Landline), m)
  {
    StagesShape(c, cc);
    CheckedStage(labels, Stages(c, cc), 3, m);
  }

  /** A bank-card match survives exactly when it holds 13 to 19 digits and no
      emitted entity of any higher occupancy category fully contains it. */
  lemma BankCardOccupancy(labels: seq<Label>, c: Candidates, cc: CharTests, m: Match)
    requires WellFormed(c)
    requires m in c.bankCard
    ensures var r := GetRegexEntities(labels, c, cc);
      ToEntity(BankCard, m) in r <==> BankCard in labels && BankDigits(cc, m) && !ClaimedBefore(r, Rank(BankCard), m)
  {
    StagesShape(c, cc);
    CheckedStage(labels, Stages(c, cc), 4, m);
  }

  /** Passport, permit and plate matches bypass occupancy: each is emitted
      exactly when its label was requested, whatever else was found. */
  lemma PassportBypass(labels: seq<Label>, c: Candidates, cc: CharTests, m: Match)
    requires WellFormed(c)
    requires m in c.passport
    ensures ToEntity(Passport, m) in GetRegexEntities(labels, c, cc) <==> Passport in labels
  {
    StagesShape(c, cc);
    UncheckedStage(labels, Stages(c, cc), 5, m);
  }

  lemma PermitBypass(labels: seq<Label>, c: Candidates, cc: CharTests, m: Match)
    requires WellFormed(c)
    requires m in c.permit
    ensures ToEntity(Permit, m) in GetRegexEntities(labels, c, cc) <==> Permit in labels
  {
    StagesShape(c, cc);
    UncheckedStage(labels, Stages(c, cc), 6, m);
  }

  lemma PlateBypass(labels: seq<Label>, c: Candidates, cc: CharTests, m: Match)
    requires WellFormed(c)
    requires m in c.plate
    ensures ToEntity(Plate, m) in GetRegexEntities(labels, c, cc) <==> Plate in labels
  {
    StagesShape(c, cc);
    UncheckedStage(labels, Stages(c, cc), 7, m);
  }

  /** The occupied set at the end is exactly the spans of the national IDs and
      occupancy-checked entities: the last three stages claim nothing. */
  lemma OccupiedAtEnd(labels: seq<Label>, c: Candidates, cc: CharTests)
    requires WellFormed(c)
    ensures var ss := Stages(c, cc);
      Run(labels, ss).occupied == SpanSet(Run(labels, ss[..5]).entities)
  {
    var ss := Stages(c, cc);
    StagesShape(c, cc);
    RunSettled(labels, ss, 5);
    BypassKeepsOccupied(labels, ss, 5, 8);
    assert ss[..8] == ss;
  }

  /** `e` is the entity of some match of a stage whose label was requested. */
  predicate FromStage(ss: seq<Stage>, labels: seq<Label>, e: Entity)
  {
    exists i, k :: 0 <= i < |ss| && 0 <= k < |ss[i].matches| && ss[i].category in labels
                   && e == ToEntity(ss[i].category, ss[i].matches[k])
  }

  /** Everything the detector reports is a match of a requested category. */
  lemma {:induction false} RunFrom(labels: seq<Label>, ss: seq<Stage>, e: Entity)
    requires e in Run(labels, ss).entities
    ensures FromStage(ss, labels, e)
    decreases |ss|
  {
    var init := ss[..|ss| - 1];
    var s := ss[|ss| - 1];
    var st := Run(labels, init);
    if e in st.entities {
      RunFrom(labels, init, e);
      var i, k :| 0 <= i < |init| && 0 <= k < |init[i].matches| && init[i].category in labels
                  && e == ToEntity(init[i].category, init[i].matches[k]);
      assert ss[i] == init[i];
    } else {
      assert s.category in labels;
      match s.kind
      case Unconditional(occupies) =>
        var es := Emit(s.category, s.matches);
        assert e in es;
        var k :| 0 <= k < |es| && es[k] == e;
        assert e == ToEntity(ss[|ss| - 1].category, ss[|ss| - 1].matches[k]);
      case Conditional(admit) =>
        ClaimShape(s.category, s.matches, st.occupied, admit);
        var k :| 0 <= k < |s.matches| && e == ToEntity(s.category, s.matches[k]);
        assert e == ToEntity(ss[|ss| - 1].category, ss[|ss| - 1].matches[k]);
    }
  }

  /** Every match of every category lies within a text of length `n`. */
  predicate CandidatesWithin(c: Candidates, cc: CharTests, n: nat)
  {
    forall i, k :: 0 <= i < |Stages(c, cc)| && 0 <= k < |Stages(c, cc)[i].matches| ==>
      Stages(c, cc)[i].matches[k].start <= Stages(c, cc)[i].matches[k].end <= n
  }

  /** The detector reports only requested categories, found by a pattern,
      at the spans of their matches. */
  lemma RegexEntitiesFrom(labels: seq<Label>, c: Candidates, cc: CharTests, n: nat, e: Entity)
    requires e in GetRegexEntities(labels, c, cc)
    ensures e.category in labels && e.how == Regex
    ensures CandidatesWithin(c, cc, n) ==> e.start <= e.end <= n
  {
    RunFrom(labels, Stages(c, cc), e);
  }
}
