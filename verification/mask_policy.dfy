/** The per-label masking rules of `apply_masking`: which characters of one
    merged segment become `'*'`. */
module MaskPolicy {
  import opened Seqs
  import opened Entities

  /** The character classes the rules pick positions by: digits; the
      characters of an identity number, digits and the check letter
      (`c.isdigit() or c.lower() == 'x'`); the characters of an account or
      registration code (`c.isdigit() or c.isalpha()`). */
  datatype Class = Digits | IdChars | CodeChars

  predicate In(cc: CharTests, k: Class, c: char)
  {
    match k
    case Digits => cc.isDigit(c)
    case IdChars => cc.isDigit(c) || c == 'x' || c == 'X'
    case CodeChars => cc.isDigit(c) || cc.isAlpha(c)
  }

  /** `[i for i, c in enumerate(seg) if c in class k]`. */
  function Positions(cc: CharTests, k: Class, seg: string): (ds: seq<nat>)
    ensures forall j :: 0 <= j < |ds| ==> ds[j] < |seg| && In(cc, k, seg[ds[j]])
    ensures forall j, j' :: 0 <= j < j' < |ds| ==> ds[j] < ds[j']
  {
    if seg == [] then []
    else
      var ds := Positions(cc, k, seg[..|seg| - 1]);
      if In(cc, k, seg[|seg| - 1]) then ds + [|seg| - 1] else ds
  }

  /** How many characters of class `k` the string holds: the rank of the
      position right after it among that class. */
  function Tally(cc: CharTests, k: Class, s: string): nat
  {
    if s == [] then 0 else Tally(cc, k, s[..|s| - 1]) + (if In(cc, k, s[|s| - 1]) then 1 else 0)
  }

  /** Where the mobile rule starts hiding among `n` digits: the fourth digit
      of a plain eleven-digit number, otherwise the eighth digit from the end. */
  function MobileStart(n: nat): nat
    requires n >= 11
  {
    if n == 11 then 3 else n - 8
  }

  /** The indices a rule writes `'*'` to, for the rules that pick by index
      list. */
  function Picked(cc: CharTests, seg: string, l: Label): seq<nat>
  {
    match l
    case IdCard =>
      var ds := Positions(cc, IdChars, seg);
      if |ds| >= 6 then ds[|ds| - 6..] else ds
    case Mobile =>
      var ds := Positions(cc, Digits, seg);
      if |ds| >= 11 then ds[MobileStart(|ds|)..MobileStart(|ds|) + 4] else []
    case Landline =>
      var ds := Positions(cc, Digits, seg);
      Slice(ds, Max(0, |ds| / 2 - 2), |ds| / 2 + 2)
    case BankCard =>
      var ds := Positions(cc, CodeChars, seg);
      if |ds| > 4 then ds[..|ds| - 4] else ds
    case CreditCode =>
      var ds := Positions(cc, CodeChars, seg);
      if |ds| > 4 then ds[..|ds| - 4] else ds
    case _ => []
  }

  /** Whether the rule for label `l` hides position `i` of `seg`. */
  predicate Hidden(cc: CharTests, seg: string, l: Label, i: nat)
  {
    match l
    case Name => i == 0
    case Passport => |seg| > 2 && 1 <= i < |seg| - 1
    case Permit => |seg| >= 9 && 2 <= i < 6
    case Plate => |seg| >= 7 && 2 <= i < |seg| - 1 && i < |seg| && cc.isAlnum(seg[i])
    case Other(_) => true
    case _ => i in Picked(cc, seg, l)
  }

  /** The first `n` characters of the masked segment. */
  function MaskPrefix(cc: CharTests, seg: string, l: Label, n: nat): (r: string)
    requires n <= |seg|
    ensures |r| == n
    decreases n
  {
    if n == 0 then [] else MaskPrefix(cc, seg, l, n - 1) + [if Hidden(cc, seg, l, n - 1) then '*' else seg[n - 1]]
  }

  /** The masked segment: same length, hidden positions replaced by `'*'`. */
  function Masked(cc: CharTests, seg: string, l: Label): (r: string)
    ensures |r| == |seg|
  {
    MaskPrefix(cc, seg, l, |seg|)
  }

  lemma {:induction false} MaskPrefixAt(cc: CharTests, seg: string, l: Label, n: nat, i: nat)
    requires i < n <= |seg|
    ensures MaskPrefix(cc, seg, l, n)[i] == if Hidden(cc, seg, l, i) then '*' else seg[i]
    decreases n
  {
    if i < n - 1 {
      MaskPrefixAt(cc, seg, l, n - 1, i);
    }
  }

  /** Position `i` of the masked segment is `'*'` exactly when it is hidden,
      and the original character otherwise. */
  lemma MaskedAt(cc: CharTests, seg: string, l: Label, i: nat)
    requires i < |seg|
    ensures Masked(cc, seg, l)[i] == if Hidden(cc, seg, l, i) then '*' else seg[i]
  {
    MaskPrefixAt(cc, seg, l, |seg|, i);
  }

  // ---- ranks: which occurrence of a character class a position is ----

  /** `Positions` lists exactly as many indices as there are characters of
      the class. */
  lemma {:induction false} PositionsCount(cc: CharTests, k: Class, seg: string)
    ensures |Positions(cc, k, seg)| == Tally(cc, k, seg)
    decreases |seg|
  {
    if seg != [] {
      PositionsCount(cc, k, seg[..|seg| - 1]);
    }
  }

  /** A position of the class is listed at its rank: the number of characters
      of the class before it. */
  lemma {:induction false} PositionsRank(cc: CharTests, k: Class, seg: string, i: nat)
    requires i < |seg| && In(cc, k, seg[i])
    ensures Tally(cc, k, seg[..i]) < |Positions(cc, k, seg)|
    ensures Positions(cc, k, seg)[Tally(cc, k, seg[..i])] == i
    decreases |seg|
  {
    var init := seg[..|seg| - 1];
    if i == |seg| - 1 {
      PositionsCount(cc, k, init);
      assert seg[..i] == init;
    } else {
      PositionsRank(cc, k, init, i);
      assert init[..i] == seg[..i];
    }
  }

  /** Position `i` is among the listed indices `a` to `b` exactly when it is
      of the class and its rank lies in that range. */
  lemma PositionsRange(cc: CharTests, k: Class, seg: string, a: nat, b: nat, i: nat)
    requires a <= b <= |Positions(cc, k, seg)| && i < |seg|
    ensures i in Positions(cc, k, seg)[a..b] <==> In(cc, k, seg[i]) && a <= Tally(cc, k, seg[..i]) < b
  {
    var ds := Positions(cc, k, seg);
    if i in ds[a..b] {
      var j :| a <= j < b && ds[j] == i;
      PositionsRank(cc, k, seg, i);
    }
    if In(cc, k, seg[i]) && a <= Tally(cc, k, seg[..i]) < b {
      PositionsRank(cc, k, seg, i);
      assert ds[a..b][Tally(cc, k, seg[..i]) - a] == i;
    }
  }

  /** For the rules that pick by index list, a position is starred exactly
      when it is picked. */
  lemma MaskedPicked(cc: CharTests, seg: string, l: Label, i: nat)
    requires l.IdCard? || l.Mobile? || l.Landline? || l.BankCard? || l.CreditCode?
    requires i < |seg|
    ensures Masked(cc, seg, l)[i] == if i in Picked(cc, seg, l) then '*' else seg[i]
  {
    MaskedAt(cc, seg, l, i);
  }

  // ---- the rules stated by rank ----

  /** Identity numbers hide their last six digits or check letters; with
      fewer than six, all of them. */
  lemma IdCardRule(cc: CharTests, seg: string, i: nat)
    requires i < |seg|
    ensures Masked(cc, seg, IdCard)[i] ==
      if In(cc, IdChars, seg[i]) && Tally(cc, IdChars, seg[..i]) + 6 >= Tally(cc, IdChars, seg) then '*' else seg[i]
  {
    var ds := Positions(cc, IdChars, seg);
    PositionsCount(cc, IdChars, seg);
    MaskedPicked(cc, seg, IdCard, i);
    var a := if |ds| >= 6 then |ds| - 6 else 0;
    assert Picked(cc, seg, IdCard) == ds[a..|ds|];
    PositionsRange(cc, IdChars, seg, a, |ds|, i);
    if In(cc, IdChars, seg[i]) {
      PositionsRank(cc, IdChars, seg, i);
    }
  }

  /** Mobile numbers with at least eleven digits hide four consecutive
      digits: the 4th to 7th of an eleven-digit number, the 8th to 5th from
      the end of a longer one; shorter numbers are left as they are. */
  lemma MobileRule(cc: CharTests, seg: string, i: nat)
    requires i < |seg|
    ensures var n := Tally(cc, Digits, seg);
      Masked(cc, seg, Mobile)[i] ==
        if n >= 11 && In(cc, Digits, seg[i]) && MobileStart(n) <= Tally(cc, Digits, seg[..i]) < MobileStart(n) + 4 then '*' else seg[i]
  {
    var ds := Positions(cc, Digits, seg);
    PositionsCount(cc, Digits, seg);
    MaskedPicked(cc, seg, Mobile, i);
    if |ds| >= 11 {
      var a := MobileStart(|ds|);
      PositionsRange(cc, Digits, seg, a, a + 4, i);
      assert Picked(cc, seg, Mobile) == ds[a..a + 4];
      assert (i in Picked(cc, seg, Mobile)) == (In(cc, Digits, seg[i]) && a <= Tally(cc, Digits, seg[..i]) < a + 4);
    }
  }

  /** Landline numbers hide the (up to) four digits around the middle digit. */
  lemma LandlineRule(cc: CharTests, seg: string, i: nat)
    requires i < |seg|
    ensures var n := Tally(cc, Digits, seg);
      Masked(cc, seg, Landline)[i] ==
        if In(cc, Digits, seg[i]) && n / 2 - 2 <= Tally(cc, Digits, seg[..i]) < n / 2 + 2 then '*' else seg[i]
  {
    var ds := Positions(cc, Digits, seg);
    PositionsCount(cc, Digits, seg);
    MaskedPicked(cc, seg, Landline, i);
    var a := Max(0, |ds| / 2 - 2);
    var b := Min(|ds| / 2 + 2, |ds|);
    assert Slice(ds, a, |ds| / 2 + 2) == ds[a..b];
    PositionsRange(cc, Digits, seg, a, b, i);
    if In(cc, Digits, seg[i]) {
      PositionsRank(cc, Digits, seg, i);
    }
  }

  /** Bank cards and credit codes keep their last four digits or letters and
      hide the rest; with four or fewer, all are hidden. */
  lemma CodeRule(cc: CharTests, seg: string, l: Label, i: nat)
    requires l == BankCard || l == CreditCode
    requires i < |seg|
    ensures var n := Tally(cc, CodeChars, seg);
      Masked(cc, seg, l)[i] ==
        if In(cc, CodeChars, seg[i]) && (n <= 4 || Tally(cc, CodeChars, seg[..i]) < n - 4) then '*' else seg[i]
  {
    var ds := Positions(cc, CodeChars, seg);
    PositionsCount(cc, CodeChars, seg);
    MaskedPicked(cc, seg, l, i);
    if |ds| > 4 {
      PositionsRange(cc, CodeChars, seg, 0, |ds| - 4, i);
      assert ds[0..|ds| - 4] == ds[..|ds| - 4];
    } else {
      PositionsRange(cc, CodeChars, seg, 0, |ds|, i);
      assert ds[0..|ds|] == ds;
      if In(cc, CodeChars, seg[i]) {
        PositionsRank(cc, CodeChars, seg, i);
      }
    }
  }

  /** Names lose their first character only. */
  lemma NameRule(cc: CharTests, seg: string)
    requires seg != []
    ensures Masked(cc, seg, Name) == ['*'] + seg[1..]
  {
    forall i | 0 <= i < |seg|
      ensures Masked(cc, seg, Name)[i] == (['*'] + seg[1..])[i]
    {
      MaskedAt(cc, seg, Name, i);
    }
  }

  /** Passports keep their first and last character. */
  lemma PassportRule(cc: CharTests, seg: string)
    requires |seg| > 2
    ensures Masked(cc, seg, Passport) == [seg[0]] + seq(|seg| - 2, _ => '*') + [seg[|seg| - 1]]
  {
    var want := [seg[0]] + seq(|seg| - 2, _ => '*') + [seg[|seg| - 1]];
    forall i | 0 <= i < |seg|
      ensures Masked(cc, seg, Passport)[i] == want[i]
    {
      MaskedAt(cc, seg, Passport, i);
    }
  }

  /** Permits of at least nine characters hide the third to sixth. */
  lemma PermitRule(cc: CharTests, seg: string)
    requires |seg| >= 9
    ensures Masked(cc, seg, Permit) == seg[..2] + "****" + seg[6..]
  {
    var want := seg[..2] + "****" + seg[6..];
    forall i | 0 <= i < |seg|
      ensures Masked(cc, seg, Permit)[i] == want[i]
    {
      MaskedAt(cc, seg, Permit, i);
    }
  }

  /** Plates of at least seven characters hide the letters and digits
      between the second and the last character. */
  lemma PlateRule(cc: CharTests, seg: string, i: nat)
    requires |seg| >= 7 && i < |seg|
    ensures Masked(cc, seg, Plate)[i] == if 2 <= i < |seg| - 1 && cc.isAlnum(seg[i]) then '*' else seg[i]
  {
    MaskedAt(cc, seg, Plate, i);
  }

  /** Semantic labels other than names are hidden completely. */
  lemma OtherRule(cc: CharTests, seg: string, s: string)
    ensures Masked(cc, seg, Other(s)) == seq(|seg|, _ => '*')
  {
    forall i | 0 <= i < |seg|
      ensures Masked(cc, seg, Other(s))[i] == '*'
    {
      MaskedAt(cc, seg, Other(s), i);
    }
  }

  /** Short plates, permits and passports, and mobile numbers with fewer than
      eleven digits, pass through unchanged. */
  lemma ShortUnchanged(cc: CharTests, seg: string, l: Label)
    requires (l == Plate && |seg| < 7) || (l == Permit && |seg| < 9) || (l == Passport && |seg| <= 2)
             || (l == Mobile && Tally(cc, Digits, seg) < 11)
    ensures Masked(cc, seg, l) == seg
  {
    if l == Mobile {
      PositionsCount(cc, Digits, seg);
      assert Picked(cc, seg, l) == [];
    }
    forall i | 0 <= i < |seg|
      ensures Masked(cc, seg, l)[i] == seg[i]
    {
      MaskedAt(cc, seg, l, i);
    }
  }
}
