/** The f3probe transcript classifier (`F3Worker._parse_f3probe_output`): a
    left-to-right fold over the probe's stdout lines that extracts the real and
    the promised capacity and settles on one status tag. */
module Classifier {
  import opened Options
  import opened Text
  import opened Numerals

  /** The status tags the classifier can report. */
  datatype Status = ProbablyGenuine | FakeWarning | CapacityMismatch | TestCompleted

  /** The branch of the per-line `elif` chain a line takes. */
  datatype Rule = GenuineRule | CounterfeitRule | ShortfallRule | UsableRule | AnnouncedRule | NoRule

  predicate GenuineLine(line: string) {
    Contains(line, "Good news: The device") && Contains(line, "is the real thing")
  }

  predicate CounterfeitLine(line: string) {
    Contains(line, "Bad news: The device") && Contains(line, "is a counterfeit")
  }

  predicate ShortfallLine(line: string) {
    Contains(line, "WARNING: Only") && Contains(line, "sectors were found")
  }

  predicate UsableLine(line: string) {
    Contains(line, "*Usable* size:")
  }

  predicate AnnouncedLine(line: string) {
    Contains(line, "Announced size:")
  }

  /** The first rule, in the source's priority order, whose phrases the line holds. */
  function RuleOf(line: string): Rule {
    if GenuineLine(line) then GenuineRule
    else if CounterfeitLine(line) then CounterfeitRule
    else if ShortfallLine(line) then ShortfallRule
    else if UsableLine(line) then UsableRule
    else if AnnouncedLine(line) then AnnouncedRule
    else NoRule
  }

  /** The two rules that set the counterfeit flag. */
  predicate FakeRule(r: Rule) {
    r == CounterfeitRule || r == ShortfallRule
  }

  /** A sector count: commas removed, stripped, then read by `int()`. */
  function SectorCount(s: string): Option<nat> {
    ParseNat(Strip(RemoveChar(s, ',')))
  }

  /** The two sector counts of a shortfall line, found in `line.split("Only ")[1]`
      around the first " of " and before " sectors"; the declared count is 0 when
      " of " is missing. None stands for the ValueError or IndexError the source
      catches. */
  function ParseShortfall(line: string): Option<(nat, nat)> {
    match SecondField(line, "Only ")
    case None => None
    case Some(piece) =>
      var found := SectorCount(BeforeFirst(piece, " of "));
      var declared :=
        match SecondField(piece, " of ")
        case None => Some(0)
        case Some(rest) => SectorCount(BeforeFirst(rest, " sectors"));
      if found.Some? && declared.Some? then Some((found.value, declared.value)) else None
  }

  const SectorSize: nat := 512
  const GiB: nat := 1024 * 1024 * 1024

  /** `round(sectors * 512 / 1024**3, 2)` in hundredths of a GiB. */
  function CentiGiB(sectors: nat): (h: nat)
    ensures 2 * (sectors * SectorSize * 100 - h * GiB) <= GiB
    ensures 2 * (h * GiB - sectors * SectorSize * 100) <= GiB
    ensures 2 * (sectors * SectorSize * 100 - h * GiB) == GiB || 2 * (h * GiB - sectors * SectorSize * 100) == GiB
      ==> h % 2 == 0
  {
    RoundHalfEven(sectors * SectorSize * 100, GiB)
  }

  /** `f"{gb} GB"` for a capacity of `h` hundredths of a GiB. */
  function CapacityText(h: nat): string {
    HundredthsText(h) + " GB"
  }

  /** `line.split(":")[-1].strip().split("(")[0].strip()`. */
  function SizeField(line: string): (r: string)
    ensures ':' !in r && '(' !in r
    ensures Trimmed(r)
  {
    var cut := BeforeFirst(Strip(AfterLast(line, ':')), "(");
    ContainsChar(cut, '(');
    Strip(cut)
  }

  /** The two capacity fields. */
  datatype Field = RealCapacity | PromisedCapacity

  /** The value a line assigns to a capacity field, if it assigns one. */
  function Update(f: Field, line: string): Option<string> {
    match RuleOf(line)
    case UsableRule => if f == RealCapacity then Some(SizeField(line)) else None
    case AnnouncedRule => if f == PromisedCapacity then Some(SizeField(line)) else None
    case ShortfallRule =>
      (match ParseShortfall(line)
       case Some(counts) => Some(CapacityText(CentiGiB(if f == RealCapacity then counts.0 else counts.1)))
       case None => None)
    case _ => None
  }

  /** A shortfall line whose sector counts do not parse: it emits a warning. */
  predicate FailedShortfall(line: string) {
    RuleOf(line) == ShortfallRule && ParseShortfall(line).None?
  }

  /** `v` is what the last line that assigns field `f` assigned, or None when no
      line assigns it. */
  ghost predicate LastUpdate(lines: seq<string>, f: Field, v: Option<string>) {
    match v
    case None => forall i :: 0 <= i < |lines| ==> Update(f, lines[i]).None?
    case Some(_) =>
      exists i :: 0 <= i < |lines| && Update(f, lines[i]) == v
        && forall j :: i < j < |lines| ==> Update(f, lines[j]).None?
  }

  ghost predicate AnyFake(lines: seq<string>) {
    exists i :: 0 <= i < |lines| && FakeRule(RuleOf(lines[i]))
  }

  ghost predicate AnyGenuine(lines: seq<string>) {
    exists i :: 0 <= i < |lines| && RuleOf(lines[i]) == GenuineRule
  }

  ghost predicate AnyFailedShortfall(lines: seq<string>) {
    exists i :: 0 <= i < |lines| && FailedShortfall(lines[i])
  }

  /** The fold's local variables: `real_capacity`, `promised_capacity` (None for
      "not detected"), `status_message`, `is_fake`, and how many parse warnings
      were emitted. */
  datatype Summary = Summary(realCapacity: Option<string>, promisedCapacity: Option<string>,
                             tentative: Status, fake: bool, warnings: nat)

  const Start := Summary(None, None, TestCompleted, false, 0)

  /** How many shortfall lines fail to parse: one warning is due for each. */
  function FailedCount(lines: seq<string>): nat
    decreases |lines|
  {
    if |lines| == 0 then 0
    else FailedCount(lines[..|lines| - 1]) + if FailedShortfall(lines[|lines| - 1]) then 1 else 0
  }

  /** One iteration of the loop body. */
  function Step(s: Summary, line: string): Summary {
    match RuleOf(line)
    case GenuineRule => s.(tentative := ProbablyGenuine)
    case CounterfeitRule => s.(fake := true, tentative := FakeWarning)
    case ShortfallRule =>
      (match ParseShortfall(line)
       case Some(_) =>
         s.(fake := true, realCapacity := Update(RealCapacity, line), promisedCapacity := Update(PromisedCapacity, line))
       case None => s.(fake := true, warnings := s.warnings + 1))
    case UsableRule => s.(realCapacity := Update(RealCapacity, line))
    case AnnouncedRule => s.(promisedCapacity := Update(PromisedCapacity, line))
    case NoRule => s
  }

  /** The loop over all lines. */
  function Scan(lines: seq<string>): (s: Summary)
    ensures s.fake <==> AnyFake(lines)
    ensures !s.fake ==> s.tentative == (if AnyGenuine(lines) then ProbablyGenuine else TestCompleted)
    ensures LastUpdate(lines, RealCapacity, s.realCapacity) && LastUpdate(lines, PromisedCapacity, s.promisedCapacity)
    ensures s.warnings <= |lines|
    ensures s.warnings == 0 <==> !AnyFailedShortfall(lines)
    ensures s.warnings == FailedCount(lines)
    decreases |lines|
  {
    if |lines| == 0 then Start
    else
      var p := Scan(lines[..|lines| - 1]);
      StepFlags(p, lines[|lines| - 1]);
      FlagsStep(lines, p);
      FieldsStep(lines, p);
      Step(p, lines[|lines| - 1])
  }

  /** What one more line does to the flags and counters of the fold. */
  lemma StepFlags(p: Summary, line: string)
    ensures Step(p, line).fake == (p.fake || FakeRule(RuleOf(line)))
    ensures Step(p, line).tentative == match RuleOf(line)
      case GenuineRule => ProbablyGenuine
      case CounterfeitRule => FakeWarning
      case _ => p.tentative
    ensures Step(p, line).warnings == p.warnings + if FailedShortfall(line) then 1 else 0
  {
    match RuleOf(line)
    case GenuineRule =>
      assert Step(p, line) == p.(tentative := ProbablyGenuine);
    case CounterfeitRule =>
      assert Step(p, line) == p.(fake := true, tentative := FakeWarning);
    case ShortfallRule =>
      assert Step(p, line).fake && Step(p, line).tentative == p.tentative;
    case UsableRule =>
      assert Step(p, line) == p.(realCapacity := Update(RealCapacity, line));
    case AnnouncedRule =>
      assert Step(p, line) == p.(promisedCapacity := Update(PromisedCapacity, line));
    case NoRule =>
      assert Step(p, line) == p;
  }

  lemma FlagsStep(lines: seq<string>, p: Summary)
    requires |lines| > 0
    requires var prev := lines[..|lines| - 1];
      && (p.fake <==> AnyFake(prev))
      && (!p.fake ==> p.tentative == (if AnyGenuine(prev) then ProbablyGenuine else TestCompleted))
      && p.warnings <= |prev|
      && (p.warnings == 0 <==> !AnyFailedShortfall(prev))
    ensures var s := Step(p, lines[|lines| - 1]);
      && (s.fake <==> AnyFake(lines))
      && (!s.fake ==> s.tentative == (if AnyGenuine(lines) then ProbablyGenuine else TestCompleted))
      && s.warnings <= |lines|
      && (s.warnings == 0 <==> !AnyFailedShortfall(lines))
  {
    var prev, line := lines[..|lines| - 1], lines[|lines| - 1];
    assert prev + [line] == lines;
    FlagsStepOn(prev, line, p);
  }

  lemma FlagsStepOn(prev: seq<string>, line: string, p: Summary)
    requires p.fake <==> AnyFake(prev)
    requires !p.fake ==> p.tentative == (if AnyGenuine(prev) then ProbablyGenuine else TestCompleted)
    requires p.warnings <= |prev|
    requires p.warnings == 0 <==> !AnyFailedShortfall(prev)
    ensures var s, lines := Step(p, line), prev + [line];
      && (s.fake <==> AnyFake(lines))
      && (!s.fake ==> s.tentative == (if AnyGenuine(lines) then ProbablyGenuine else TestCompleted))
      && s.warnings <= |lines|
      && (s.warnings == 0 <==> !AnyFailedShortfall(lines))
  {
    StepFlags(p, line);
    AnyStep(prev, line);
  }

  lemma FieldsStep(lines: seq<string>, p: Summary)
    requires |lines| > 0
    requires var prev := lines[..|lines| - 1];
      LastUpdate(prev, RealCapacity, p.realCapacity) && LastUpdate(prev, PromisedCapacity, p.promisedCapacity)
    ensures var s := Step(p, lines[|lines| - 1]);
      LastUpdate(lines, RealCapacity, s.realCapacity) && LastUpdate(lines, PromisedCapacity, s.promisedCapacity)
  {
    var prev, line := lines[..|lines| - 1], lines[|lines| - 1];
    assert prev + [line] == lines;
    FieldsStepOn(prev, line, p);
  }

  lemma FieldsStepOn(prev: seq<string>, line: string, p: Summary)
    requires LastUpdate(prev, RealCapacity, p.realCapacity) && LastUpdate(prev, PromisedCapacity, p.promisedCapacity)
    ensures var s, lines := Step(p, line), prev + [line];
      LastUpdate(lines, RealCapacity, s.realCapacity) && LastUpdate(lines, PromisedCapacity, s.promisedCapacity)
  {
    StepField(p, line);
    LastUpdateStep(prev, line, RealCapacity, p.realCapacity);
    LastUpdateStep(prev, line, PromisedCapacity, p.promisedCapacity);
  }

  /** How the three `Any` predicates grow by one line. */
  lemma AnyStep(prev: seq<string>, line: string)
    ensures AnyFake(prev + [line]) <==> AnyFake(prev) || FakeRule(RuleOf(line))
    ensures AnyGenuine(prev + [line]) <==> AnyGenuine(prev) || RuleOf(line) == GenuineRule
    ensures AnyFailedShortfall(prev + [line]) <==> AnyFailedShortfall(prev) || FailedShortfall(line)
  {
    var lines := prev + [line];
    var n := |prev|;
    assert lines[n] == line;
    assert forall i :: 0 <= i < n ==> lines[i] == prev[i];
  }

  /** The field `f` after one more line: the line's value if it assigns one,
      otherwise the earlier value. */
  lemma LastUpdateStep(prev: seq<string>, line: string, f: Field, v: Option<string>)
    requires LastUpdate(prev, f, v)
    ensures LastUpdate(prev + [line], f, if Update(f, line).Some? then Update(f, line) else v)
  {
    var lines := prev + [line];
    var n := |prev|;
    assert lines[n] == line;
    assert forall i :: 0 <= i < n ==> lines[i] == prev[i];
    if Update(f, line).None? && v.Some? {
      var i :| 0 <= i < n && Update(f, prev[i]) == v
        && forall j :: i < j < n ==> Update(f, prev[j]).None?;
      assert Update(f, lines[i]) == v;
    }
  }

  /** `Step` changes each capacity field exactly when the line assigns it. */
  lemma StepField(p: Summary, line: string)
    ensures Step(p, line).realCapacity == if Update(RealCapacity, line).Some? then Update(RealCapacity, line) else p.realCapacity
    ensures Step(p, line).promisedCapacity == if Update(PromisedCapacity, line).Some? then Update(PromisedCapacity, line) else p.promisedCapacity
  {
    match RuleOf(line) {
      case ShortfallRule =>
        match ParseShortfall(line) {
          case Some(_) =>
          case None =>
        }
      case _ =>
    }
  }

  // ---- the final verdict ----

  /** The capacity comparison made when neither counterfeit rule fired and both
      capacities were found: value and unit when both texts are "<number> <unit>"
      and both numbers parse, otherwise the texts themselves. */
  function Compare(realText: string, promisedText: string): (r: Status)
    ensures r == ProbablyGenuine || r == CapacityMismatch
  {
    var literal := if realText != promisedText then CapacityMismatch else ProbablyGenuine;
    match (SplitPair(realText), SplitPair(promisedText))
    case (Some((rv, ru)), Some((pv, pu))) => CompareMeasures(ParseDecimal(rv), ru, ParseDecimal(pv), pu, literal)
    case _ => literal
  }

  /** The value-and-unit test, falling back to `literal` when a number does not
      parse. */
  function CompareMeasures(x: Option<Decimal>, ru: string, y: Option<Decimal>, pu: string, literal: Status): Status {
    if x.Some? && y.Some? then
      if !SameValue(x.value, y.value) || ru != pu then CapacityMismatch else ProbablyGenuine
    else literal
  }

  /** What `f3probe_result` reports: both capacities (None for "not detected"),
      the status, and how many capacity-parse warnings were emitted on the way. */
  datatype Classification = Classification(realCapacity: Option<string>, promisedCapacity: Option<string>,
                                           status: Status, warnings: nat)

  /** `_parse_f3probe_output` on the stripped stdout lines. */
  function Classify(lines: seq<string>): (c: Classification)
    ensures c.status == FakeWarning <==> AnyFake(lines)
    ensures LastUpdate(lines, RealCapacity, c.realCapacity) && LastUpdate(lines, PromisedCapacity, c.promisedCapacity)
    ensures !AnyFake(lines) && c.realCapacity.Some? && c.promisedCapacity.Some? ==>
      c.status == Compare(c.realCapacity.value, c.promisedCapacity.value)
    ensures !AnyFake(lines) && (c.realCapacity.None? || c.promisedCapacity.None?) ==>
      c.status == if AnyGenuine(lines) then ProbablyGenuine else TestCompleted
    ensures c.warnings <= |lines|
    ensures c.warnings == 0 <==> !AnyFailedShortfall(lines)
    ensures c.warnings == FailedCount(lines)
  {
    var s := Scan(lines);
    var status :=
      if s.fake then FakeWarning
      else match (s.realCapacity, s.promisedCapacity)
        case (Some(r), Some(p)) => Compare(r, p)
        case _ => s.tentative;
    Classification(s.realCapacity, s.promisedCapacity, status, s.warnings)
  }

  // ---- properties of the verdict ----

  /** One counterfeit or shortfall line anywhere decides the verdict, whatever
      comes before or after it. */
  lemma FakeDominates(before: seq<string>, line: string, after: seq<string>)
    requires FakeRule(RuleOf(line))
    ensures Classify(before + [line] + after).status == FakeWarning
  {
    var lines := before + [line] + after;
    assert lines[|before|] == line;
  }

  /** Without a counterfeit or shortfall line the verdict is never the fake
      warning. */
  lemma NoFakeNoWarning(lines: seq<string>)
    requires forall i :: 0 <= i < |lines| ==> !FakeRule(RuleOf(lines[i]))
    ensures Classify(lines).status != FakeWarning
  {
  }

  /** An empty transcript reports nothing detected and "test completed". */
  lemma EmptyTranscript()
    ensures Classify([]) == Classification(None, None, TestCompleted, 0)
  {
  }

  /** A line holding both the genuine and the counterfeit phrases counts as
      genuine: the genuine test comes first in the chain. */
  lemma GenuinePriority(before: seq<string>, line: string, after: seq<string>)
    requires GenuineLine(line) && CounterfeitLine(line)
    requires !AnyFake(before) && !AnyFake(after)
    ensures Classify(before + [line] + after).status != FakeWarning
  {
    var lines := before + [line] + after;
    forall i | 0 <= i < |lines|
      ensures !FakeRule(RuleOf(lines[i]))
    {
      if i < |before| {
        assert lines[i] == before[i];
      } else if i > |before| {
        assert lines[i] == after[i - |before| - 1];
      }
    }
  }

  /** A genuine line without any line assigning a capacity reports genuine. */
  lemma GenuineWithoutSizes(lines: seq<string>)
    requires AnyGenuine(lines) && !AnyFake(lines)
    requires forall i :: 0 <= i < |lines| ==> Update(RealCapacity, lines[i]).None?
    ensures Classify(lines).status == ProbablyGenuine
    ensures Classify(lines).realCapacity == None
  {
  }

  /** A shortfall line whose counts do not parse emits one warning, marks the
      device fake and leaves both capacities as they were. */
  lemma ShortfallParseFailureKeeps(lines: seq<string>, line: string)
    requires FailedShortfall(line)
    ensures var before, after := Classify(lines), Classify(lines + [line]);
      && after.status == FakeWarning
      && after.realCapacity == before.realCapacity
      && after.promisedCapacity == before.promisedCapacity
      && after.warnings == before.warnings + 1
  {
    var all := lines + [line];
    assert all[..|all| - 1] == lines;
    assert all[|all| - 1] == line;
    StepFlags(Scan(lines), line);
    StepField(Scan(lines), line);
  }

  /** Capacities match themselves. */
  lemma CompareReflexive(x: string)
    ensures Compare(x, x) == ProbablyGenuine
  {
  }

  /** The comparison does not depend on which capacity is the real one. */
  lemma CompareSymmetric(x: string, y: string)
    ensures Compare(x, y) == Compare(y, x)
  {
  }

  /** Two "<number> <unit>" capacities match exactly when the numbers are equal
      and the unit texts are identical. */
  lemma CompareMeasured(v: string, u: string, w: string, t: string)
    requires ' ' !in v && ' ' !in u && ' ' !in w && ' ' !in t
    requires ParseDecimal(v).Some? && ParseDecimal(w).Some?
    ensures Compare(v + " " + u, w + " " + t) == ProbablyGenuine
      <==> SameValue(ParseDecimal(v).value, ParseDecimal(w).value) && u == t
  {
    SplitPairOf(v, u);
    SplitPairOf(w, t);
  }

  /** A capacity that is not "<number> <unit>" is compared as text. */
  lemma CompareLiteral(x: string, y: string)
    requires SplitPair(x).None?
    ensures Compare(x, y) == if x == y then ProbablyGenuine else CapacityMismatch
  {
  }

  /** Two "<number> <unit>" capacities are compared as text when either number
      does not parse. */
  lemma CompareUnparsed(v: string, u: string, w: string, t: string)
    requires ' ' !in v && ' ' !in u && ' ' !in w && ' ' !in t
    requires ParseDecimal(v).None? || ParseDecimal(w).None?
    ensures Compare(v + " " + u, w + " " + t)
      == if v + " " + u == w + " " + t then ProbablyGenuine else CapacityMismatch
  {
    SplitPairOf(v, u);
    SplitPairOf(w, t);
  }

  /** Units are compared as text: capacities in different units never match,
      whatever their numbers. */
  lemma UnitsNeverConverted(v: string, u: string, w: string, t: string)
    requires ' ' !in v && ' ' !in u && ' ' !in w && ' ' !in t
    requires u != t
    ensures Compare(v + " " + u, w + " " + t) == CapacityMismatch
  {
    SplitPairOf(v, u);
    SplitPairOf(w, t);
  }

  // ---- a shortfall line as f3probe prints it ----

  /** A sector count as printed: digits, possibly grouped with commas. */
  predicate CountText(s: string) {
    (forall i :: 0 <= i < |s| ==> IsDigit(s[i]) || s[i] == ',') && exists i :: 0 <= i < |s| && IsDigit(s[i])
  }

  /** The warning f3probe prints when fewer sectors work than are declared. */
  function ShortfallText(found: string, declared: string): string {
    "WARNING: Only " + found + " of " + declared + " sectors were found"
  }

  /** A printed count reads as the digits left once the commas are dropped. */
  lemma CountValue(s: string) returns (n: nat)
    requires CountText(s)
    ensures SectorCount(s) == Some(n)
    ensures var d := RemoveChar(s, ','); AllDigits(d) && |d| > 0 && n == DigitsValue(d)
  {
    var d := RemoveChar(s, ',');
    CountDigits(s);
    StripTrimmed(d);
    n := DigitsValue(d);
  }

  /** Dropping the commas of a printed count leaves a non-empty digit string. */
  lemma CountDigits(s: string)
    requires CountText(s)
    ensures var d := RemoveChar(s, ','); AllDigits(d) && |d| > 0 && IsDigit(d[0]) && IsDigit(d[|d| - 1])
  {
    var d := RemoveChar(s, ',');
    forall i | 0 <= i < |d|
      ensures IsDigit(d[i])
    {
      assert d[i] in s;
    }
    var k :| 0 <= k < |s| && IsDigit(s[k]);
    assert s[k] in d;
  }

  /** Counts hold neither spaces nor letters. */
  lemma CountChars(s: string)
    requires CountText(s)
    ensures ' ' !in s && 'v' !in s && 'O' !in s
  {
    forall i | 0 <= i < |s|
      ensures s[i] != ' ' && s[i] != 'v' && s[i] != 'O'
    {
      assert IsDigit(s[i]) || s[i] == ',';
    }
  }

  /** The tail of a shortfall line holds no " of ". The search is taken apart
      word by word, one lemma per word, so that each proof sees only one
      short literal. */
  lemma NoOfInTail()
    ensures Find(" sectors were found", " of ") == None
  {
    var w := "sectors" + " were found";
    assert w == "sectors were found";
    FindShift("sectors", " were found", " of ");
    NoOfInWereFound();
    NoOfAfterSpace(w);
  }

  lemma NoOfAfterSpace(w: string)
    requires w == "sectors were found" && Find(w, " of ") == None
    ensures Find(" sectors were found", " of ") == None
  {
    var z := " " + w;
    assert z == " sectors were found";
    assert z[..4][1] == 's';
    FindSkipOne(z, " of ");
    assert z[1..] == w;
  }

  lemma NoOfInWereFound()
    ensures Find(" were found", " of ") == None
  {
    var w := "were" + " found";
    assert w == "were found";
    FindShift("were", " found", " of ");
    NoOfInFound();
    NoOfBeforeWere(w);
  }

  lemma NoOfBeforeWere(w: string)
    requires w == "were found" && Find(w, " of ") == None
    ensures Find(" were found", " of ") == None
  {
    var y := " " + w;
    assert y == " were found";
    assert y[..4][1] == 'w';
    FindSkipOne(y, " of ");
    assert y[1..] == w;
  }

  lemma NoOfInFound()
    ensures Find(" found", " of ") == None
  {
    var x := " found";
    assert x[..4][1] == 'f';
    FindSkipOne(x, " of ");
    assert x[1..] == "found";
    MissingChar("found", " of ", 0);
  }

  /** A shortfall line takes the shortfall branch. */
  lemma ShortfallRuleOf(a: string, b: string)
    requires CountText(a) && CountText(b)
    ensures RuleOf(ShortfallText(a, b)) == ShortfallRule
  {
    var line := ShortfallText(a, b);
    CountChars(a);
    CountChars(b);
    assert 'v' !in line;
    NeitherVerdict(line);
    ShortfallPhrases(a, b);
  }

  /** Both verdict phrases contain a 'v'. */
  lemma NeitherVerdict(line: string)
    requires 'v' !in line
    ensures !GenuineLine(line) && !CounterfeitLine(line)
  {
    assert "Good news: The device"[17] == 'v';
    MissingChar(line, "Good news: The device", 17);
    assert "Bad news: The device"[16] == 'v';
    MissingChar(line, "Bad news: The device", 16);
  }

  lemma ShortfallPhrases(a: string, b: string)
    ensures ShortfallLine(ShortfallText(a, b))
  {
    var line := ShortfallText(a, b);
    assert line[..13] == "WARNING: Only";
    PresentAt(line, "WARNING: Only", 0);
    assert line[|line| - 18..] == "sectors were found";
    PresentAt(line, "sectors were found", |line| - 18);
  }

  /** The piece after "Only " runs to the end of the line. */
  lemma ShortfallPiece(a: string, b: string)
    requires CountText(a) && CountText(b)
    ensures SecondField(ShortfallText(a, b), "Only ") == Some(a + " of " + b + " sectors were found")
  {
    var piece := a + " of " + b + " sectors were found";
    CountChars(a);
    CountChars(b);
    assert ShortfallText(a, b) == "WARNING: " + "Only " + piece;
    FindAfter("WARNING: ", "Only ", piece);
    assert 'O' !in piece;
    MissingChar(piece, "Only ", 0);
    BeforeMissing(piece, "Only ");
  }

  /** Around the first " of " of the piece stand the two counts. */
  lemma ShortfallCounts(a: string, b: string)
    requires CountText(a) && CountText(b)
    ensures var piece := a + " of " + b + " sectors were found";
      && BeforeFirst(piece, " of ") == a
      && SecondField(piece, " of ") == Some(b + " sectors were found")
      && BeforeFirst(b + " sectors were found", " sectors") == b
  {
    var tail := b + " sectors were found";
    CountChars(a);
    assert a + " of " + b + " sectors were found" == a + " of " + tail;
    FindAfter(a, " of ", tail);
    DeclaredCount(b);
  }

  /** The text after " of " holds no second " of " and ends the count at
      " sectors". */
  lemma DeclaredCount(b: string)
    requires CountText(b)
    ensures BeforeFirst(b + " sectors were found", " of ") == b + " sectors were found"
    ensures BeforeFirst(b + " sectors were found", " sectors") == b
  {
    CountChars(b);
    NoSecondOf(b);
    assert b + " sectors were found" == b + " sectors" + " were found";
    FindAfter(b, " sectors", " were found");
  }

  lemma NoSecondOf(b: string)
    requires ' ' !in b
    ensures BeforeFirst(b + " sectors were found", " of ") == b + " sectors were found"
  {
    NoOfInTail();
    FindShift(b, " sectors were found", " of ");
    BeforeMissing(b + " sectors were found", " of ");
  }

  /** `ParseShortfall` reads both printed counts. */
  lemma ShortfallParse(a: string, b: string) returns (n: nat, m: nat)
    requires CountText(a) && CountText(b)
    ensures SectorCount(a) == Some(n) && SectorCount(b) == Some(m)
    ensures ParseShortfall(ShortfallText(a, b)) == Some((n, m))
  {
    n := CountValue(a);
    m := CountValue(b);
    ShortfallPiece(a, b);
    ShortfallCounts(a, b);
  }

  /** A transcript holding just the shortfall warning reports the device fake,
      with both capacities computed from the sector counts. */
  lemma ShortfallScenario(a: string, b: string) returns (n: nat, m: nat)
    requires CountText(a) && CountText(b)
    ensures SectorCount(a) == Some(n) && SectorCount(b) == Some(m)
    ensures Classify([ShortfallText(a, b)])
      == Classification(Some(CapacityText(CentiGiB(n))), Some(CapacityText(CentiGiB(m))), FakeWarning, 0)
  {
    n, m := ShortfallParse(a, b);
    ShortfallRuleOf(a, b);
    ClassifyShortfallLine(ShortfallText(a, b), n, m);
  }

  /** A transcript of one parsable shortfall line. */
  lemma ClassifyShortfallLine(line: string, n: nat, m: nat)
    requires RuleOf(line) == ShortfallRule && ParseShortfall(line) == Some((n, m))
    ensures Classify([line])
      == Classification(Some(CapacityText(CentiGiB(n))), Some(CapacityText(CentiGiB(m))), FakeWarning, 0)
  {
    ClassifyOne(line);
  }

  /** A one-line transcript is one step from the start. */
  lemma ClassifyOne(line: string)
    ensures var s := Step(Start, line);
      Classify([line]) == Classification(s.realCapacity, s.promisedCapacity,
        if s.fake then FakeWarning
        else if s.realCapacity.Some? && s.promisedCapacity.Some? then Compare(s.realCapacity.value, s.promisedCapacity.value)
        else s.tentative, s.warnings)
  {
    var lines := [line];
    assert lines[..0] == [];
  }

  /** The counts of a real 8 GB card that holds only 7.28 GiB: the capacities
      print as "7.28 GB" and "29.12 GB". */
  lemma ShortfallExample()
    ensures CapacityText(CentiGiB(15261216)) == "7.28 GB"
    ensures CapacityText(CentiGiB(61069312)) == "29.12 GB"
  {
    assert CentiGiB(15261216) == 728;
    assert CentiGiB(61069312) == 2912;
    assert NatToString(7) == "7" && FractionDigits(28) == "28";
    assert NatToString(29) == "2" + "9";
    assert FractionDigits(12) == "12";
  }

  /** The shortfall phrases in the other order: no " of " after "Only ", so the
      declared count is 0. */
  function ReversedShortfallText(found: string): string {
    "sectors were found, WARNING: Only " + found
  }

  lemma ShortfallWithoutOf(a: string) returns (n: nat)
    requires CountText(a)
    ensures SectorCount(a) == Some(n)
    ensures RuleOf(ReversedShortfallText(a)) == ShortfallRule
    ensures ParseShortfall(ReversedShortfallText(a)) == Some((n, 0))
  {
    CountChars(a);
    ReversedRuleOf(a);
    ReversedPiece(a);
    MissingChar(a, " of ", 0);
    BeforeMissing(a, " of ");
    n := CountValue(a);
  }

  lemma ReversedRuleOf(a: string)
    requires 'v' !in a
    ensures RuleOf(ReversedShortfallText(a)) == ShortfallRule
  {
    var line := ReversedShortfallText(a);
    assert 'v' !in line;
    NeitherVerdict(line);
    ReversedPhrases(a);
  }

  lemma ReversedPhrases(a: string)
    ensures ShortfallLine(ReversedShortfallText(a))
  {
    var line := ReversedShortfallText(a);
    assert line[..18] == "sectors were found";
    PresentAt(line, "sectors were found", 0);
    assert line[20..33] == "WARNING: Only";
    PresentAt(line, "WARNING: Only", 20);
  }

  lemma ReversedPiece(a: string)
    requires 'O' !in a
    ensures SecondField(ReversedShortfallText(a), "Only ") == Some(a)
  {
    assert ReversedShortfallText(a) == "sectors were found, WARNING: " + "Only " + a;
    FindAfter("sectors were found, WARNING: ", "Only ", a);
    MissingChar(a, "Only ", 0);
    BeforeMissing(a, "Only ");
  }

  // ---- the size lines ----

  /** A size as f3probe prints it, "<name>: <value> (<note>)". */
  function SizeText(name: string, value: string, note: string): string {
    name + ": " + value + " (" + note + ")"
  }

  /** The size field of such a line is the value. */
  lemma SizeFieldOf(name: string, value: string, note: string)
    requires |value| > 0 && Trimmed(value)
    requires ':' !in value && '(' !in value && ':' !in note
    ensures SizeField(SizeText(name, value, note)) == value
  {
    SizeAfterColon(name, value, note);
    SizeValueOf(value, note);
  }

  lemma SizeAfterColon(name: string, value: string, note: string)
    requires |value| > 0 && Trimmed(value)
    requires ':' !in value && ':' !in note
    ensures Strip(AfterLast(SizeText(name, value, note), ':')) == value + " (" + note + ")"
  {
    var w := value + " (" + note + ")";
    assert ':' !in " " + w;
    assert SizeText(name, value, note) == name + [':'] + (" " + w);
    AfterLastOf(name, ':', " " + w);
    StripNoted(value, note);
  }

  lemma StripNoted(value: string, note: string)
    requires |value| > 0 && Trimmed(value)
    ensures Strip(" " + (value + " (" + note + ")")) == value + " (" + note + ")"
  {
    var w := value + " (" + note + ")";
    assert w[0] == value[0] && w[|w| - 1] == ')';
    StripAround(" ", w, "");
    assert " " + w + "" == " " + w;
  }

  lemma SizeValueOf(value: string, note: string)
    requires |value| > 0 && Trimmed(value) && '(' !in value
    ensures Strip(BeforeFirst(value + " (" + note + ")", "(")) == value
  {
    assert value + " (" + note + ")" == (value + " ") + "(" + (note + ")");
    FindAfter(value + " ", "(", note + ")");
    StripAround("", value, " ");
    assert "" + value + " " == value + " ";
  }

  /** The characters that would let a size line match an earlier rule or the
      wrong field. */
  predicate SizeParts(value: string, note: string) {
    && |value| > 0 && Trimmed(value) && '(' !in value
    && (forall c :: c in value + note ==> c != ':' && c != 'v' && c != 'W' && c != '*')
  }

  function UsableText(value: string, note: string): string {
    SizeText("*Usable* size", value, note)
  }

  function AnnouncedText(value: string, note: string): string {
    SizeText("Announced size", value, note)
  }

  lemma UsableRuleOf(value: string, note: string)
    requires SizeParts(value, note)
    ensures RuleOf(UsableText(value, note)) == UsableRule
  {
    var line := UsableText(value, note);
    SizeChars(value, note);
    assert line == "*Usable* size: " + (value + " (" + note + ")");
    assert 'v' !in line && 'W' !in line;
    NeitherVerdict(line);
    MissingChar(line, "WARNING: Only", 0);
    assert line[..14] == "*Usable* size:";
    PresentAt(line, "*Usable* size:", 0);
  }

  lemma AnnouncedRuleOf(value: string, note: string)
    requires SizeParts(value, note)
    ensures RuleOf(AnnouncedText(value, note)) == AnnouncedRule
  {
    var line := AnnouncedText(value, note);
    SizeChars(value, note);
    assert line == "Announced size: " + (value + " (" + note + ")");
    assert 'v' !in line && 'W' !in line && '*' !in line;
    NeitherVerdict(line);
    MissingChar(line, "WARNING: Only", 0);
    MissingChar(line, "*Usable* size:", 0);
    assert line[..15] == "Announced size:";
    PresentAt(line, "Announced size:", 0);
  }

  lemma SizeChars(value: string, note: string)
    requires SizeParts(value, note)
    ensures var t := value + " (" + note + ")"; 'v' !in t && 'W' !in t && '*' !in t
    ensures ':' !in value && ':' !in note
  {
    assert forall c :: c in value ==> c in value + note;
    assert forall c :: c in note ==> c in value + note;
  }

  /** A two-line transcript is two steps from the start. */
  lemma ScanTwo(first: string, second: string)
    ensures Scan([first, second]) == Step(Step(Start, first), second)
  {
    var lines := [first, second];
    assert lines[..1] == [first];
    assert lines[..1][..0] == [];
  }

  /** The usable size then the announced size: both are reported and the
      verdict is their comparison. */
  lemma SizesScenario(usable: string, usableNote: string, announced: string, announcedNote: string)
    requires SizeParts(usable, usableNote) && SizeParts(announced, announcedNote)
    ensures Classify([UsableText(usable, usableNote), AnnouncedText(announced, announcedNote)])
      == Classification(Some(usable), Some(announced), Compare(usable, announced), 0)
  {
    SizeSteps(usable, usableNote, announced, announcedNote);
  }

  lemma SizeSteps(usable: string, usableNote: string, announced: string, announcedNote: string)
    requires SizeParts(usable, usableNote) && SizeParts(announced, announcedNote)
    ensures Scan([UsableText(usable, usableNote), AnnouncedText(announced, announcedNote)])
      == Summary(Some(usable), Some(announced), TestCompleted, false, 0)
  {
    var first, second := UsableText(usable, usableNote), AnnouncedText(announced, announcedNote);
    StepUsable(Start, usable, usableNote);
    StepAnnounced(Start.(realCapacity := Some(usable)), announced, announcedNote);
    ScanTwo(first, second);
  }

  /** A usable-size line sets the real capacity and nothing else. */
  lemma StepUsable(p: Summary, value: string, note: string)
    requires SizeParts(value, note)
    ensures Step(p, UsableText(value, note)) == p.(realCapacity := Some(value))
  {
    UsableRuleOf(value, note);
    SizeChars(value, note);
    SizeFieldOf("*Usable* size", value, note);
    StepUsableLine(p, UsableText(value, note));
  }

  /** An announced-size line sets the promised capacity and nothing else. */
  lemma StepAnnounced(p: Summary, value: string, note: string)
    requires SizeParts(value, note)
    ensures Step(p, AnnouncedText(value, note)) == p.(promisedCapacity := Some(value))
  {
    AnnouncedRuleOf(value, note);
    SizeChars(value, note);
    SizeFieldOf("Announced size", value, note);
    StepAnnouncedLine(p, AnnouncedText(value, note));
  }

  /** A usable-size line sets the real capacity to the extracted size and
      nothing else. */
  lemma StepUsableLine(p: Summary, line: string)
    requires RuleOf(line) == UsableRule
    ensures Step(p, line) == p.(realCapacity := Some(SizeField(line)))
  {
    assert Update(RealCapacity, line) == Some(SizeField(line));
  }

  /** An announced-size line sets the promised capacity to the extracted size
      and nothing else. */
  lemma StepAnnouncedLine(p: Summary, line: string)
    requires RuleOf(line) == AnnouncedRule
    ensures Step(p, line) == p.(promisedCapacity := Some(SizeField(line)))
  {
    assert Update(PromisedCapacity, line) == Some(SizeField(line));
  }

  /** Equal usable and announced sizes make the device probably genuine. */
  lemma MatchingSizes(size: string, usableNote: string, announcedNote: string)
    requires SizeParts(size, usableNote) && SizeParts(size, announcedNote)
    ensures Classify([UsableText(size, usableNote), AnnouncedText(size, announcedNote)]).status == ProbablyGenuine
  {
    SizesScenario(size, usableNote, size, announcedNote);
    CompareReflexive(size);
  }
}
