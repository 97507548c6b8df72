/**
 * The format compiler: a template such as "%d %p %c %m%n" becomes a
 * sequence of typed fields. `%` followed by a letter selects a directive,
 * runs of other text are coalesced into one plain-text field and unknown
 * letters are dropped.
 */
module Format {

  datatype FieldKind =
    | Invalid | Category | ClassName | Date | File | Line | Message | Method
    | Newline | Priority | Runtime | Thread | Actor | PercentSign | PlainText

  /** One compiled unit; `text` is used by plain-text fields only. */
  datatype Field = Field(kind: FieldKind, text: string)

  /** The directive table: the kind selected by the letter after `%`. */
  function DirectiveKind(c: char): FieldKind {
    match c
    case 'c' => Category
    case 'C' => ClassName
    case 'd' => Date
    case 'F' => File
    case 'L' => Line
    case 'm' => Message
    case 'M' => Method
    case 'n' => Newline
    case 'p' => Priority
    case 'r' => Runtime
    case 't' => Thread
    case 'a' => Actor
    case '%' => PercentSign
    case _ => Invalid
  }

  predicate IsDirectiveLetter(c: char) {
    c in "cCdFLmMnprta%"
  }

  lemma DirectiveKindValid(c: char)
    ensures DirectiveKind(c) != Invalid <==> IsDirectiveLetter(c)
    ensures DirectiveKind(c) != PlainText
  {
  }

  /** The fields a directive letter contributes: one field, or none when invalid. */
  function DirectiveFields(c: char): seq<Field> {
    if DirectiveKind(c) != Invalid then [Field(DirectiveKind(c), "")] else []
  }

  /** The plain-text field for `x`, if `x` is not empty. */
  function PlainRun(x: string): seq<Field> {
    if x != "" then [Field(PlainText, x)] else []
  }

  /**
   * The compiler's loop, one character per step. `first` is the start of the
   * pending plain-text run and `pct` records that the previous character was
   * an unconsumed `%`. On reading `%` the pending run is emitted but `first`
   * stays where it was, so a template that ends in a lone `%` emits the text
   * before it a second time, followed by the `%`.
   */
  function Scan(s: string, i: nat, first: nat, pct: bool, acc: seq<Field>): (r: seq<Field>)
    requires first <= i <= |s|
    ensures acc <= r
    ensures forall j :: |acc| <= j < |r| ==> r[j].kind != Invalid
    decreases |s| - i
  {
    if i == |s| then
      acc + PlainRun(s[first..i])
    else if pct then
      Scan(s, i + 1, i + 1, false, acc + DirectiveFields(s[i]))
    else if s[i] == '%' then
      Scan(s, i + 1, first, true, acc + PlainRun(s[first..i]))
    else
      Scan(s, i + 1, first, false, acc)
  }

  /** Position of the first `%` in `t`, or `|t|` if there is none. */
  function FirstPercent(t: string): (k: nat)
    ensures k <= |t|
    ensures forall j :: 0 <= j < k ==> t[j] != '%'
    ensures k < |t| ==> t[k] == '%'
  {
    if |t| == 0 then 0
    else if t[0] == '%' then 0
    else 1 + FirstPercent(t[1..])
  }

  /**
   * Reference definition of the compiled format, by the structure of the
   * template: the text up to the first `%`, then either the trailing-`%`
   * case or one directive and the compilation of the rest.
   */
  function Compile(t: string): (r: seq<Field>)
    ensures |r| <= |t|
    decreases |t|
  {
    var k := FirstPercent(t);
    var text := PlainRun(t[..k]);
    if k == |t| then text
    else if k == |t| - 1 then text + [Field(PlainText, t)]
    else text + DirectiveFields(t[k + 1]) + Compile(t[k + 2..])
  }

  lemma CompileNoPercent(t: string)
    requires forall j :: 0 <= j < |t| ==> t[j] != '%'
    ensures Compile(t) == PlainRun(t)
  {
    FirstPercentNone(t);
    assert t[..|t|] == t;
  }

  lemma CompileTrailing(t: string)
    requires |t| > 0 && t[|t| - 1] == '%'
    requires forall j :: 0 <= j < |t| - 1 ==> t[j] != '%'
    ensures Compile(t) == PlainRun(t[..|t| - 1]) + [Field(PlainText, t)]
  {
    FirstPercentUnique(t, |t| - 1);
  }

  lemma CompileDirective(t: string, k: nat)
    requires k < |t| - 1 && t[k] == '%'
    requires forall j :: 0 <= j < k ==> t[j] != '%'
    ensures Compile(t) == PlainRun(t[..k]) + DirectiveFields(t[k + 1]) + Compile(t[k + 2..])
  {
    FirstPercentUnique(t, k);
  }

  /** The compiler loop computes the reference definition from any clean state. */
  lemma {:induction false} ScanIsCompile(s: string, i: nat, first: nat, acc: seq<Field>)
    requires first <= i <= |s|
    requires forall j :: first <= j < i ==> s[j] != '%'
    ensures Scan(s, i, first, false, acc) == acc + Compile(s[first..])
    decreases |s| - i
  {
    if i == |s| {
      ScanAtEnd(s, first, acc);
    } else if s[i] != '%' {
      ScanIsCompile(s, i + 1, first, acc);
    } else if i == |s| - 1 {
      ScanTrailingPercent(s, first, acc);
    } else {
      var acc2 := acc + PlainRun(s[first..i]) + DirectiveFields(s[i + 1]);
      ScanDirective(s, i, first, acc);
      ScanIsCompile(s, i + 2, i + 2, acc2);
    }
  }

  lemma ScanAtEnd(s: string, first: nat, acc: seq<Field>)
    requires first <= |s|
    requires forall j :: first <= j < |s| ==> s[j] != '%'
    ensures Scan(s, |s|, first, false, acc) == acc + Compile(s[first..])
  {
    assert s[first..] == s[first..|s|];
    CompileNoPercent(s[first..]);
  }

  lemma ScanTrailingPercent(s: string, first: nat, acc: seq<Field>)
    requires first < |s| && s[|s| - 1] == '%'
    requires forall j :: first <= j < |s| - 1 ==> s[j] != '%'
    ensures Scan(s, |s| - 1, first, false, acc) == acc + Compile(s[first..])
  {
    var t := s[first..];
    var i := |s| - 1;
    assert t[..|t| - 1] == s[first..i];
    CompileTrailing(t);
    var acc1 := acc + PlainRun(s[first..i]);
    assert Scan(s, i, first, false, acc) == Scan(s, i + 1, first, true, acc1);
    assert s[first..|s|] == t;
  }

  lemma ScanDirective(s: string, i: nat, first: nat, acc: seq<Field>)
    requires first <= i < |s| - 1 && s[i] == '%'
    requires forall j :: first <= j < i ==> s[j] != '%'
    ensures Scan(s, i, first, false, acc)
         == Scan(s, i + 2, i + 2, false, acc + PlainRun(s[first..i]) + DirectiveFields(s[i + 1]))
    ensures acc + Compile(s[first..])
         == acc + PlainRun(s[first..i]) + DirectiveFields(s[i + 1]) + Compile(s[i + 2..])
  {
    ScanDirectiveStep(s, i, first, acc);
    CompileDirectiveAt(s, i, first);
    FieldsRegroup(acc, PlainRun(s[first..i]), DirectiveFields(s[i + 1]), Compile(s[i + 2..]));
  }

  lemma FieldsRegroup(w: seq<Field>, x: seq<Field>, y: seq<Field>, z: seq<Field>)
    ensures w + (x + y + z) == w + x + y + z
  {
  }

  /** The loop reads `%` and then the directive letter. */
  lemma ScanDirectiveStep(s: string, i: nat, first: nat, acc: seq<Field>)
    requires first <= i < |s| - 1 && s[i] == '%'
    ensures Scan(s, i, first, false, acc)
         == Scan(s, i + 2, i + 2, false, acc + PlainRun(s[first..i]) + DirectiveFields(s[i + 1]))
  {
    var acc1 := acc + PlainRun(s[first..i]);
    assert Scan(s, i, first, false, acc) == Scan(s, i + 1, first, true, acc1);
    assert Scan(s, i + 1, first, true, acc1) == Scan(s, i + 2, i + 2, false, acc1 + DirectiveFields(s[i + 1]));
  }

  /** The reference compilation of the unread text, split at its first directive. */
  lemma CompileDirectiveAt(s: string, i: nat, first: nat)
    requires first <= i < |s| - 1 && s[i] == '%'
    requires forall j :: first <= j < i ==> s[j] != '%'
    ensures Compile(s[first..]) == PlainRun(s[first..i]) + DirectiveFields(s[i + 1]) + Compile(s[i + 2..])
  {
    var t := s[first..];
    var k := i - first;
    assert t[..k] == s[first..i];
    assert t[k + 1] == s[i + 1];
    assert t[k + 2..] == s[i + 2..];
    CompileDirective(t, k);
  }

  lemma FirstPercentNone(t: string)
    requires forall j :: 0 <= j < |t| ==> t[j] != '%'
    ensures FirstPercent(t) == |t|
  {
    if |t| > 0 {
      FirstPercentNone(t[1..]);
    }
  }

  lemma FirstPercentUnique(t: string, k: nat)
    requires k < |t| && t[k] == '%'
    requires forall j :: 0 <= j < k ==> t[j] != '%'
    ensures FirstPercent(t) == k
  {
  }

  /**
   * Compiles a template. Invalid directives never reach the result, every
   * plain-text field carries the non-empty text it stands for and every other
   * field carries none.
   */
  function ParseFormat(s: string): (r: seq<Field>)
    ensures r == Compile(s)
    ensures forall j :: 0 <= j < |r| ==> WellFormed(r[j])
  {
    ScanIsCompile(s, 0, 0, []);
    assert s[0..] == s;
    CompileWellFormed(s);
    Scan(s, 0, 0, false, [])
  }

  predicate WellFormed(f: Field) {
    && f.kind != Invalid
    && (f.kind == PlainText <==> f.text != "")
  }

  lemma {:induction false} CompileWellFormed(t: string)
    ensures forall j :: 0 <= j < |Compile(t)| ==> WellFormed(Compile(t)[j])
    decreases |t|
  {
    var k := FirstPercent(t);
    var text := PlainRun(t[..k]);
    if k == |t| - 1 {
      WellFormedAppend(text, [Field(PlainText, t)]);
    } else if k < |t| - 1 {
      var fields := DirectiveFields(t[k + 1]);
      DirectiveKindValid(t[k + 1]);
      CompileWellFormed(t[k + 2..]);
      WellFormedAppend(text, fields);
      WellFormedAppend(text + fields, Compile(t[k + 2..]));
    }
  }

  lemma WellFormedAppend(a: seq<Field>, b: seq<Field>)
    requires forall j :: 0 <= j < |a| ==> WellFormed(a[j])
    requires forall j :: 0 <= j < |b| ==> WellFormed(b[j])
    ensures forall j :: 0 <= j < |a + b| ==> WellFormed((a + b)[j])
  {
  }

  /** A template without `%` is a single plain-text field; "" compiles to nothing. */
  lemma NoDirectives(s: string)
    requires '%' !in s
    ensures s == "" ==> ParseFormat(s) == []
    ensures s != "" ==> ParseFormat(s) == [Field(PlainText, s)]
  {
    FirstPercentNone(s);
    assert s[..|s|] == s;
  }

  lemma PercentPercent()
    ensures ParseFormat("%%") == [Field(PercentSign, "")]
  {
    assert FirstPercent("%%") == 0;
    assert Compile("%%"[2..]) == [];
  }

  /** A lone trailing `%` re-emits the text before it, this time with the `%`. */
  lemma TrailingPercent(s: string)
    requires '%' !in s && s != ""
    ensures ParseFormat(s + "%") == [Field(PlainText, s), Field(PlainText, s + "%")]
  {
    var t := s + "%";
    FirstPercentUnique(t, |s|);
    assert t[..|s|] == s;
  }

  /** Leading text, one directive, then the rest of the template. */
  lemma TextThenDirective(text: string, c: char, rest: string)
    requires '%' !in text
    ensures ParseFormat(text + ['%', c] + rest)
         == (if text != "" then [Field(PlainText, text)] else []) + DirectiveFields(c) + ParseFormat(rest)
  {
    var t := text + ['%', c] + rest;
    FirstPercentUnique(t, |text|);
    assert t[..|text|] == text;
    assert t[|text| + 2..] == rest;
  }

  /** The template consisting of one directive per letter of `cs`. */
  function Directives(cs: string): string {
    if cs == "" then "" else ['%', cs[0]] + Directives(cs[1..])
  }

  /** The kinds of the recognised letters of `cs`, in order. */
  function RecognisedKinds(cs: string): seq<FieldKind> {
    if cs == "" then []
    else if IsDirectiveLetter(cs[0]) then [DirectiveKind(cs[0])] + RecognisedKinds(cs[1..])
    else RecognisedKinds(cs[1..])
  }

  function Kinds(fs: seq<Field>): seq<FieldKind> {
    if fs == [] then [] else [fs[0].kind] + Kinds(fs[1..])
  }

  lemma KindsAppend(a: seq<Field>, b: seq<Field>)
    ensures Kinds(a + b) == Kinds(a) + Kinds(b)
  {
    if a != [] {
      assert (a + b)[0] == a[0];
      assert (a + b)[1..] == a[1..] + b;
      KindsAppend(a[1..], b);
      assert Kinds(a + b) == [a[0].kind] + Kinds(a[1..] + b);
    } else {
      assert a + b == b;
    }
  }

  /**
   * Each recognised directive letter yields exactly one field of its kind, in
   * template order, and unrecognised letters yield nothing.
   */
  lemma {:induction false} DirectivesInOrder(cs: string)
    ensures Kinds(ParseFormat(Directives(cs))) == RecognisedKinds(cs)
    decreases |cs|
  {
    if cs != "" {
      TextThenDirective("", cs[0], Directives(cs[1..]));
      assert "" + ['%', cs[0]] + Directives(cs[1..]) == Directives(cs);
      DirectiveKindValid(cs[0]);
      KindsAppend(DirectiveFields(cs[0]), ParseFormat(Directives(cs[1..])));
      DirectivesInOrder(cs[1..]);
    }
  }
}
