/** The label taxonomy, the entity record both detectors produce, and the
    character classes the masking rules consult. */
module Entities {

  /** A label of the fixed taxonomy, or any other label a caller passes. */
  datatype Label =
    | IdCard | Mobile | Landline | BankCard | CreditCode | Passport | Permit | Plate
    | Name
    | Other(name: string)

  /** The label strings the service exchanges. */
  function LabelText(l: Label): string
  {
    match l
    case IdCard => "身份证号"
    case Mobile => "手机号码"
    case Landline => "固定电话"
    case BankCard => "银行卡号"
    case CreditCode => "统一社会信用代码"
    case Passport => "护照号码"
    case Permit => "港澳通行证"
    case Plate => "车牌号码"
    case Name => "姓名"
    case Other(s) => s
  }

  function ParseLabel(s: string): (l: Label)
    ensures LabelText(l) == s
  {
    if s == "身份证号" then IdCard
    else if s == "手机号码" then Mobile
    else if s == "固定电话" then Landline
    else if s == "银行卡号" then BankCard
    else if s == "统一社会信用代码" then CreditCode
    else if s == "护照号码" then Passport
    else if s == "港澳通行证" then Permit
    else if s == "车牌号码" then Plate
    else if s == "姓名" then Name
    else Other(s)
  }

  /** A label is canonical when it is the one its own text parses to, i.e. an
      `Other` never spells a taxonomy label. */
  predicate Canonical(l: Label)
  {
    ParseLabel(LabelText(l)) == l
  }

  lemma TaxonomyCanonical(l: Label)
    requires !l.Other?
    ensures Canonical(l)
  {
  }

  /** Canonical labels are equal exactly when their strings are, so comparing
      them agrees with the service's comparisons of label strings. */
  lemma CanonicalText(a: Label, b: Label)
    requires Canonical(a) && Canonical(b)
    ensures a == b <==> LabelText(a) == LabelText(b)
  {
    if LabelText(a) == LabelText(b) {
      assert a == ParseLabel(LabelText(a)) == ParseLabel(LabelText(b)) == b;
    }
  }

  /** `MANDATORY_NUMERIC_SCHEMA`: the labels found by the pattern detector; on
      a merge they dominate semantic labels. */
  const MANDATORY: seq<Label> := [IdCard, Mobile, Landline, BankCard, CreditCode, Passport, Permit, Plate]

  /** `OPTIONAL_SEMANTIC_SCHEMA`: the labels handed to the semantic recognizer. */
  const OPTIONAL: seq<Label> := [Name, Other("地址"), Other("企业名称"), Other("机构名称"), Other("电子邮箱")]

  predicate IsMandatory(l: Label)
    ensures IsMandatory(l) <==> !(l.Name? || l.Other?)
  {
    l in MANDATORY
  }

  /** How an entity was found: a pattern, the recognizer on one chunk, or the
      whole-text rescan for a literal the recognizer reported. */
  datatype Method = Regex | TaskflowChunk | TaskflowGlobalScan

  /** A detected entity: its label (`category`, since `label` is a Dafny keyword),
      half-open character offsets into the text, the matched text and how it was
      found (`how`, the entity's `method` field). */
  datatype Entity = Entity(category: Label, start: nat, end: nat, text: string, how: Method)

  function StartKey(e: Entity): int { e.start }

  /** Python's Unicode-aware `str.isdigit`, `str.isalpha`, `str.isalnum` and
      `str.isspace`, plus the case fold `re.IGNORECASE` compares with; the model
      keeps them abstract. */
  datatype CharTests = CharTests(
    isDigit: char -> bool,
    isAlpha: char -> bool,
    isAlnum: char -> bool,
    isSpace: char -> bool,
    fold: char -> char)

  /** `not s.strip()`: the string is empty or all white space. */
  predicate IsBlank(cc: CharTests, s: string) {
    forall i :: 0 <= i < |s| ==> cc.isSpace(s[i])
  }

  /** Number of elements of `s` satisfying `p` (`sum(1 for c in s if p(c))`). */
  function Count<T>(s: seq<T>, p: T -> bool): nat
  {
    if s == [] then 0 else Count(s[..|s| - 1], p) + (if p(s[|s| - 1]) then 1 else 0)
  }

  /** The span of an entity as a pair, the key type of the service's dictionaries. */
  function SpanOf(e: Entity): (nat, nat) { (e.start, e.end) }
}
