/** The property-line loop of `_get_disk_vendor_product`: reading the vendor
    and the model of a disk from `udevadm info -q property` output, and joining
    them into the brand/model text. */
module Udev {
  import opened Options
  import opened Text

  /** The two identification fields. */
  datatype Field = Vendor | Model

  /** The loop's two local variables. */
  datatype Ids = Ids(vendor: Option<string>, model: Option<string>)

  /** The key from the hardware database, which always wins. */
  function DatabaseKey(f: Field): string {
    match f
    case Vendor => "ID_VENDOR_FROM_DATABASE="
    case Model => "ID_MODEL_FROM_DATABASE="
  }

  /** The device's own key. */
  function PlainKey(f: Field): string {
    match f
    case Vendor => "ID_VENDOR="
    case Model => "ID_MODEL="
  }

  /** The device's own key, escaped form. */
  function EncodedKey(f: Field): string {
    match f
    case Vendor => "ID_VENDOR_ENC="
    case Model => "ID_MODEL_ENC="
  }

  /** `line.split("=")[1].strip()`: the text between the first and the second
      '=', trimmed. Every line the loop reads a value from holds a '='. */
  function Value(line: string): (r: string)
    ensures Trimmed(r) && '=' !in r
  {
    var piece := SecondField(line, "=").GetOr("");
    ContainsChar(piece, '=');
    if SecondField(line, "=").Some? then Strip(piece) else ""
  }

  predicate IsDatabase(f: Field, line: string) {
    StartsWith(line, DatabaseKey(f))
  }

  /** A line that fills the field only while it is still unset. */
  predicate IsFallback(f: Field, line: string) {
    StartsWith(line, PlainKey(f)) || StartsWith(line, EncodedKey(f))
  }

  /** One iteration of the loop body: the six-way `elif` chain. */
  function Step(ids: Ids, line: string): Ids {
    if StartsWith(line, DatabaseKey(Vendor)) then ids.(vendor := Some(Value(line)))
    else if StartsWith(line, DatabaseKey(Model)) then ids.(model := Some(Value(line)))
    else if StartsWith(line, PlainKey(Vendor)) && ids.vendor.None? then ids.(vendor := Some(Value(line)))
    else if StartsWith(line, PlainKey(Model)) && ids.model.None? then ids.(model := Some(Value(line)))
    else if StartsWith(line, EncodedKey(Vendor)) && ids.vendor.None? then ids.(vendor := Some(Value(line)))
    else if StartsWith(line, EncodedKey(Model)) && ids.model.None? then ids.(model := Some(Value(line)))
    else ids
  }

  /** The field `f` after: `v` before. A database line sets it; a fallback line
      sets it only while unset. */
  function FieldStep(f: Field, v: Option<string>, line: string): Option<string> {
    if IsDatabase(f, line) then Some(Value(line))
    else if IsFallback(f, line) && v.None? then Some(Value(line))
    else v
  }

  /** What the field ends up holding: the value of the last database line if
      there is one, otherwise the value of the first fallback line, otherwise
      nothing. */
  ghost predicate Expected(lines: seq<string>, f: Field, v: Option<string>) {
    if exists i :: 0 <= i < |lines| && IsDatabase(f, lines[i]) then
      exists i :: 0 <= i < |lines| && IsDatabase(f, lines[i]) && v == Some(Value(lines[i]))
        && forall j :: i < j < |lines| ==> !IsDatabase(f, lines[j])
    else if exists i :: 0 <= i < |lines| && IsFallback(f, lines[i]) then
      exists i :: 0 <= i < |lines| && IsFallback(f, lines[i]) && v == Some(Value(lines[i]))
        && forall j :: 0 <= j < i ==> !IsFallback(f, lines[j])
    else v == None
  }

  /** The loop over all property lines. */
  function Parse(lines: seq<string>): (ids: Ids)
    ensures Expected(lines, Vendor, ids.vendor)
    ensures Expected(lines, Model, ids.model)
    decreases |lines|
  {
    if |lines| == 0 then Ids(None, None)
    else
      var p := Parse(lines[..|lines| - 1]);
      ParseStep(lines, p);
      Step(p, lines[|lines| - 1])
  }

  lemma ParseStep(lines: seq<string>, p: Ids)
    requires |lines| > 0
    requires Expected(lines[..|lines| - 1], Vendor, p.vendor) && Expected(lines[..|lines| - 1], Model, p.model)
    ensures Expected(lines, Vendor, Step(p, lines[|lines| - 1]).vendor)
    ensures Expected(lines, Model, Step(p, lines[|lines| - 1]).model)
  {
    var prev, line := lines[..|lines| - 1], lines[|lines| - 1];
    assert prev + [line] == lines;
    StepFields(p, line);
    ExpectedStep(prev, line, Vendor, p.vendor);
    ExpectedStep(prev, line, Model, p.model);
  }

  /** The `elif` chain acts on each field on its own: the six keys exclude one
      another. */
  lemma StepFields(ids: Ids, line: string)
    ensures Step(ids, line).vendor == FieldStep(Vendor, ids.vendor, line)
    ensures Step(ids, line).model == FieldStep(Model, ids.model, line)
  {
    KeysExclusive(line);
  }

  /** A line starts with at most one of the six keys. */
  lemma KeysExclusive(line: string)
    ensures StartsWith(line, DatabaseKey(Vendor)) ==>
      && !StartsWith(line, DatabaseKey(Model))
      && !StartsWith(line, PlainKey(Vendor)) && !StartsWith(line, PlainKey(Model))
      && !StartsWith(line, EncodedKey(Vendor)) && !StartsWith(line, EncodedKey(Model))
    ensures StartsWith(line, DatabaseKey(Model)) ==>
      && !StartsWith(line, PlainKey(Vendor)) && !StartsWith(line, PlainKey(Model))
      && !StartsWith(line, EncodedKey(Vendor)) && !StartsWith(line, EncodedKey(Model))
    ensures StartsWith(line, PlainKey(Vendor)) ==>
      !StartsWith(line, PlainKey(Model)) && !StartsWith(line, EncodedKey(Vendor)) && !StartsWith(line, EncodedKey(Model))
    ensures StartsWith(line, PlainKey(Model)) ==>
      !StartsWith(line, EncodedKey(Vendor)) && !StartsWith(line, EncodedKey(Model))
    ensures StartsWith(line, EncodedKey(Vendor)) ==> !StartsWith(line, EncodedKey(Model))
  {
    var vd, md, vp, mp, ve, me :=
      DatabaseKey(Vendor), DatabaseKey(Model), PlainKey(Vendor), PlainKey(Model), EncodedKey(Vendor), EncodedKey(Model);
    assert vd[3] == 'V' && vp[3] == 'V' && ve[3] == 'V';
    assert md[3] == 'M' && mp[3] == 'M' && me[3] == 'M';
    assert vd[9] == '_' && vp[9] == '=' && ve[9] == '_' && vd[10] == 'F' && ve[10] == 'E';
    assert md[8] == '_' && mp[8] == '=' && me[8] == '_' && md[9] == 'F' && me[9] == 'E';
    Differ(line, vd, md, 3); Differ(line, vd, mp, 3); Differ(line, vd, me, 3);
    Differ(line, vp, md, 3); Differ(line, vp, mp, 3); Differ(line, vp, me, 3);
    Differ(line, ve, md, 3); Differ(line, ve, mp, 3); Differ(line, ve, me, 3);
    Differ(line, vd, vp, 9); Differ(line, vd, ve, 10); Differ(line, vp, ve, 9);
    Differ(line, md, mp, 8); Differ(line, md, me, 9); Differ(line, mp, me, 8);
  }

  /** Two prefixes that differ at index `k` cannot both start a line. */
  lemma Differ(line: string, p: string, q: string, k: nat)
    requires k < |p| && k < |q| && p[k] != q[k]
    ensures !(StartsWith(line, p) && StartsWith(line, q))
  {
    if StartsWith(line, p) {
      assert line[..|p|][k] == line[k];
      if |q| <= |line| {
        assert line[..|q|][k] == line[k];
      }
    }
  }

  /** The expected value after one more line. */
  lemma ExpectedStep(prev: seq<string>, line: string, f: Field, v: Option<string>)
    requires Expected(prev, f, v)
    ensures Expected(prev + [line], f, FieldStep(f, v, line))
  {
    var lines := prev + [line];
    assert lines[|prev|] == line;
    assert forall i :: 0 <= i < |prev| ==> lines[i] == prev[i];
    if IsDatabase(f, line) {
      assert IsDatabase(f, lines[|prev|]);
    } else if exists i :: 0 <= i < |prev| && IsDatabase(f, prev[i]) {
      KeptAfterDatabase(prev, line, f, v);
    } else {
      FallbackStep(prev, line, f, v);
    }
  }

  lemma KeptAfterDatabase(prev: seq<string>, line: string, f: Field, v: Option<string>)
    requires Expected(prev, f, v) && !IsDatabase(f, line)
    requires exists i :: 0 <= i < |prev| && IsDatabase(f, prev[i])
    ensures FieldStep(f, v, line) == v
    ensures Expected(prev + [line], f, v)
  {
    var i :| 0 <= i < |prev| && IsDatabase(f, prev[i]) && v == Some(Value(prev[i]))
      && forall j :: i < j < |prev| ==> !IsDatabase(f, prev[j]);
    LastDatabaseKept(prev, line, f, i);
  }

  /** The last database line stays the last one after a line that is not one. */
  lemma LastDatabaseKept(prev: seq<string>, line: string, f: Field, i: nat)
    requires i < |prev| && IsDatabase(f, prev[i]) && !IsDatabase(f, line)
    requires forall j :: i < j < |prev| ==> !IsDatabase(f, prev[j])
    ensures var lines := prev + [line];
      && lines[i] == prev[i]
      && forall j :: i < j < |lines| ==> !IsDatabase(f, lines[j])
  {
    var lines := prev + [line];
    forall j | i < j < |lines|
      ensures !IsDatabase(f, lines[j])
    {
      if j < |prev| {
        assert lines[j] == prev[j];
      }
    }
  }

  lemma FallbackStep(prev: seq<string>, line: string, f: Field, v: Option<string>)
    requires Expected(prev, f, v) && !IsDatabase(f, line)
    requires forall i :: 0 <= i < |prev| ==> !IsDatabase(f, prev[i])
    ensures Expected(prev + [line], f, FieldStep(f, v, line))
  {
    NoDatabaseAfter(prev, line, f);
    if exists i :: 0 <= i < |prev| && IsFallback(f, prev[i]) {
      FallbackKeptStep(prev, line, f, v);
    } else {
      FallbackFirstStep(prev, line, f);
    }
  }

  /** Once a fallback line was seen, later lines leave the field alone. */
  lemma FallbackKeptStep(prev: seq<string>, line: string, f: Field, v: Option<string>)
    requires exists i :: (0 <= i < |prev| && IsFallback(f, prev[i]) && v == Some(Value(prev[i]))
      && forall j :: 0 <= j < i ==> !IsFallback(f, prev[j]))
    requires !IsDatabase(f, line)
    requires forall i :: 0 <= i < |prev + [line]| ==> !IsDatabase(f, (prev + [line])[i])
    ensures Expected(prev + [line], f, FieldStep(f, v, line))
  {
    KeptFallback(prev, line, f, v);
    assert FieldStep(f, v, line) == v;
  }

  /** Before any fallback line, the step takes the line's value if it is one. */
  lemma FallbackFirstStep(prev: seq<string>, line: string, f: Field)
    requires forall i :: 0 <= i < |prev| ==> !IsFallback(f, prev[i])
    requires !IsDatabase(f, line)
    requires forall i :: 0 <= i < |prev + [line]| ==> !IsDatabase(f, (prev + [line])[i])
    ensures Expected(prev + [line], f, FieldStep(f, None, line))
  {
    FirstFallbackAt(prev, line, f);
    if IsFallback(f, line) {
      assert FieldStep(f, None, line) == Some(Value(line));
      assert IsFallback(f, (prev + [line])[|prev|]);
    } else {
      assert FieldStep(f, None, line) == None;
    }
  }

  /** Without a database line so far, one more non-database line adds none. */
  lemma NoDatabaseAfter(prev: seq<string>, line: string, f: Field)
    requires !IsDatabase(f, line)
    requires forall i :: 0 <= i < |prev| ==> !IsDatabase(f, prev[i])
    ensures forall i :: 0 <= i < |prev + [line]| ==> !IsDatabase(f, (prev + [line])[i])
  {
    var lines := prev + [line];
    forall i | 0 <= i < |lines|
      ensures !IsDatabase(f, lines[i])
    {
      if i < |prev| {
        assert lines[i] == prev[i];
      }
    }
  }

  /** Without a fallback line so far, the line itself is the first one, if it
      is one at all. */
  lemma FirstFallbackAt(prev: seq<string>, line: string, f: Field)
    requires forall i :: 0 <= i < |prev| ==> !IsFallback(f, prev[i])
    ensures var lines := prev + [line];
      && lines[|prev|] == line
      && (IsFallback(f, line) ==> forall j :: 0 <= j < |prev| ==> !IsFallback(f, lines[j]))
      && (!IsFallback(f, line) ==> forall j :: 0 <= j < |lines| ==> !IsFallback(f, lines[j]))
  {
    var lines := prev + [line];
    assert lines[|prev|] == line;
    assert forall j :: 0 <= j < |prev| ==> lines[j] == prev[j];
  }

  lemma KeptFallback(prev: seq<string>, line: string, f: Field, v: Option<string>)
    requires exists i :: (0 <= i < |prev| && IsFallback(f, prev[i]) && v == Some(Value(prev[i]))
      && forall j :: 0 <= j < i ==> !IsFallback(f, prev[j]))
    ensures var lines := prev + [line];
      exists i :: (0 <= i < |lines| && IsFallback(f, lines[i]) && v == Some(Value(lines[i]))
        && forall j :: 0 <= j < i ==> !IsFallback(f, lines[j]))
  {
    var lines := prev + [line];
    var i :| 0 <= i < |prev| && IsFallback(f, prev[i]) && v == Some(Value(prev[i]))
      && forall j :: 0 <= j < i ==> !IsFallback(f, prev[j]);
    assert forall j :: 0 <= j <= i ==> lines[j] == prev[j];
  }

  /** The brand/model text: the non-empty ones of vendor and model, joined by
      one space, or None when both are missing or empty. */
  function BrandModel(ids: Ids): (r: Option<string>)
    ensures var v := ids.vendor.GetOr(""); var m := ids.model.GetOr("");
      && (r.None? <==> v == "" && m == "")
      && (v != "" && m != "" ==> r == Some(v + " " + m))
      && (v != "" && m == "" ==> r == Some(v))
      && (v == "" && m != "" ==> r == Some(m))
  {
    var parts := (if ids.vendor.Some? && ids.vendor.value != "" then [ids.vendor.value] else [])
      + (if ids.model.Some? && ids.model.value != "" then [ids.model.value] else []);
    if |parts| == 0 then None
    else
      assert |parts| == 2 ==> parts[..1] == [parts[0]];
      Some(Join(parts, " "))
  }

  // ---- properties ----

  /** The value of a "KEY=value" line is the value up to any further '=',
      trimmed. */
  lemma ValueOf(name: string, rest: string)
    requires '=' !in name
    ensures Value(name + "=" + rest) == Strip(BeforeFirst(rest, "="))
  {
    FindAfter(name, "=", rest);
  }

  /** A database line after a plain one replaces it; a plain line after a
      database one does not. */
  lemma DatabaseWins(db: string, plain: string)
    requires IsDatabase(Vendor, db) && StartsWith(plain, "ID_VENDOR=")
    ensures Parse([plain, db]).vendor == Some(Value(db))
    ensures Parse([db, plain]).vendor == Some(Value(db))
  {
    ParseTwo(plain, db);
    ParseTwo(db, plain);
    KeysExclusive(db);
    KeysExclusive(plain);
  }

  /** The first of two fallback lines is the one kept. */
  lemma FirstFallbackKept(first: string, second: string)
    requires IsFallback(Vendor, first) && IsFallback(Vendor, second)
    ensures Parse([first, second]).vendor == Some(Value(first))
  {
    ParseTwo(first, second);
    KeysExclusive(first);
    KeysExclusive(second);
  }

  lemma ParseTwo(first: string, second: string)
    ensures Parse([first, second]) == Step(Step(Ids(None, None), first), second)
  {
    ParseOne(first);
    var lines := [first, second];
    assert lines[..1] == [first];
  }

  lemma ParseOne(line: string)
    ensures Parse([line]) == Step(Ids(None, None), line)
  {
    assert [line][..0] == [];
  }
}
