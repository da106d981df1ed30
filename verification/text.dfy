/** The handful of Python `str` operations the program's text logic relies on:
    substring search (`in`, `startswith`), the pieces `split(sep)[0]`,
    `split(sep)[1]` and `split(sep)[-1]`, `strip()`, `replace(c, "")`,
    `lower()` and `"\n".join(...)`. */
module Text {
  import opened Options

  predicate StartsWith(s: string, prefix: string) {
    |prefix| <= |s| && s[..|prefix|] == prefix
  }

  /** `sep` occurs in `s` starting at index `j`. */
  predicate OccursAt(s: string, sep: string, j: nat) {
    j + |sep| <= |s| && s[j..j + |sep|] == sep
  }

  /** The index of the first occurrence of `sep` at or after `k`. */
  function FindFrom(s: string, sep: string, k: nat): (r: Option<nat>)
    requires k <= |s|
    ensures r.Some? ==> k <= r.value <= |s| && OccursAt(s, sep, r.value)
    ensures r.Some? ==> forall j :: k <= j < r.value ==> !OccursAt(s, sep, j)
    ensures r.None? ==> forall j :: k <= j <= |s| ==> !OccursAt(s, sep, j)
    decreases |s| - k
  {
    if OccursAt(s, sep, k) then Some(k)
    else if k == |s| then None
    else FindFrom(s, sep, k + 1)
  }

  /** The index of the first occurrence of `sep` in `s`. */
  function Find(s: string, sep: string): (r: Option<nat>)
    ensures r.Some? ==> OccursAt(s, sep, r.value)
    ensures r.Some? ==> forall j :: 0 <= j < r.value ==> !OccursAt(s, sep, j)
    ensures r.None? ==> forall j :: 0 <= j <= |s| ==> !OccursAt(s, sep, j)
  {
    FindFrom(s, sep, 0)
  }

  /** Python's `sub in s`. */
  predicate Contains(s: string, sub: string) {
    exists j :: 0 <= j <= |s| && OccursAt(s, sub, j)
  }

  /** `s.split(sep)[0]`: the text before the first `sep`, or all of `s`. */
  function BeforeFirst(s: string, sep: string): (r: string)
    ensures StartsWith(s, r)
    ensures !Contains(r, sep) || |sep| == 0
    ensures r == s || StartsWith(s, r + sep)
  {
    match Find(s, sep)
    case Some(i) =>
      assert s[..i + |sep|] == s[..i] + sep;
      forall j | 0 <= j && j + |sep| <= i && |sep| > 0
        ensures !OccursAt(s[..i], sep, j)
      {
        assert s[..i][j..j + |sep|] == s[j..j + |sep|];
        assert j < i;
        assert !OccursAt(s, sep, j);
      }
      s[..i]
    case None => s
  }

  /** The text after the first `sep`, or None when `sep` does not occur. */
  function AfterFirst(s: string, sep: string): (r: Option<string>)
    ensures r.None? <==> !Contains(s, sep)
    ensures r.Some? ==> s == BeforeFirst(s, sep) + sep + r.value
  {
    match Find(s, sep)
    case Some(i) =>
      assert s == s[..i] + s[i..i + |sep|] + s[i + |sep|..];
      Some(s[i + |sep|..])
    case None => None
  }

  /** `s.split(sep)[1]`: the piece between the first and the second `sep`;
      None stands for the IndexError raised when `sep` does not occur. */
  function SecondField(s: string, sep: string): (r: Option<string>)
    ensures r.None? <==> !Contains(s, sep)
  {
    match AfterFirst(s, sep)
    case Some(rest) => Some(BeforeFirst(rest, sep))
    case None => None
  }

  /** `s.split([c])[-1]`: the text after the last `c`, or all of `s`. */
  function AfterLast(s: string, c: char): (r: string)
    ensures |r| <= |s| && r == s[|s| - |r|..]
    ensures c !in r
    ensures c in s ==> |r| < |s| && s[|s| - |r| - 1] == c
    ensures c !in s ==> r == s
    decreases |s|
  {
    if |s| == 0 then s
    else if s[|s| - 1] == c then []
    else
      var r := AfterLast(s[..|s| - 1], c) + [s[|s| - 1]];
      assert s == s[..|s| - 1] + [s[|s| - 1]];
      r
  }

  /** The characters Python's `str.isspace()` accepts, and so the ones
      `str.strip()` removes. */
  predicate IsSpace(c: char) {
    || '\t' <= c <= '\r'
    || '\U{1c}' <= c <= ' '
    || c == '\U{85}' || c == '\U{a0}' || c == '\U{1680}'
    || '\U{2000}' <= c <= '\U{200a}'
    || c == '\U{2028}' || c == '\U{2029}' || c == '\U{202f}' || c == '\U{205f}' || c == '\U{3000}'
  }

  predicate AllSpace(s: string) {
    forall i :: 0 <= i < |s| ==> IsSpace(s[i])
  }

  /** Neither the first nor the last character is white space. */
  predicate Trimmed(s: string) {
    |s| == 0 || (!IsSpace(s[0]) && !IsSpace(s[|s| - 1]))
  }

  function TrimLeft(s: string): (r: string)
    ensures |r| <= |s| && r == s[|s| - |r|..]
    ensures AllSpace(s[..|s| - |r|])
    ensures |r| == 0 || !IsSpace(r[0])
    decreases |s|
  {
    if |s| > 0 && IsSpace(s[0]) then
      var r := TrimLeft(s[1..]);
      assert s[1..][|s| - 1 - |r|..] == s[|s| - |r|..];
      assert s[..|s| - |r|] == [s[0]] + s[1..][..|s| - 1 - |r|];
      r
    else s
  }

  function TrimRight(s: string): (r: string)
    ensures |r| <= |s| && r == s[..|r|]
    ensures AllSpace(s[|r|..])
    ensures |r| == 0 || !IsSpace(r[|r| - 1])
    decreases |s|
  {
    if |s| > 0 && IsSpace(s[|s| - 1]) then TrimRight(s[..|s| - 1]) else s
  }

  /** Python's `s.strip()`. */
  function Strip(s: string): (r: string)
    ensures Trimmed(r)
    ensures |r| <= |s|
    ensures forall c :: c in r ==> c in s
  {
    TrimRight(TrimLeft(s))
  }

  /** Stripping removes exactly the white space around a trimmed core. */
  lemma {:induction false} StripAround(left: string, core: string, right: string)
    requires AllSpace(left) && AllSpace(right) && Trimmed(core)
    ensures Strip(left + core + right) == core
  {
    if |core| == 0 {
      assert left + core + right == [] + (left + right);
      TrimLeftSpaces(left + right, []);
    } else {
      assert left + core + right == left + (core + right);
      TrimLeftSpaces(left, core + right);
      TrimRightSpaces(core, right);
    }
  }

  /** TrimLeft drops a white-space prefix and stops at the first other character. */
  lemma {:induction false} TrimLeftSpaces(left: string, rest: string)
    requires AllSpace(left)
    requires |rest| == 0 || !IsSpace(rest[0])
    ensures TrimLeft(left + rest) == rest
    decreases |left|
  {
    if |left| == 0 {
      assert left + rest == rest;
    } else {
      assert (left + rest)[1..] == left[1..] + rest;
      TrimLeftSpaces(left[1..], rest);
    }
  }

  lemma {:induction false} TrimRightSpaces(core: string, right: string)
    requires AllSpace(right) && Trimmed(core)
    ensures TrimRight(core + right) == core
    decreases |right|
  {
    if |right| == 0 {
      assert core + right == core;
    } else {
      assert (core + right)[..|core + right| - 1] == core + right[..|right| - 1];
      TrimRightSpaces(core, right[..|right| - 1]);
    }
  }

  /** A string without surrounding white space is left unchanged by strip(). */
  lemma StripTrimmed(s: string)
    requires Trimmed(s)
    ensures Strip(s) == s
  {
    StripAround([], s, []);
    assert [] + s + [] == s;
  }

  /** Python's `s.replace(c, "")` for a one-character `c`. */
  function RemoveChar(s: string, c: char): (r: string)
    ensures c !in r
    ensures forall x :: x in r <==> x in s && x != c
    ensures c !in s ==> r == s
    decreases |s|
  {
    if |s| == 0 then s
    else
      assert s == [s[0]] + s[1..];
      (if s[0] == c then [] else [s[0]]) + RemoveChar(s[1..], c)
  }

  function LowerChar(c: char): char {
    if 'A' <= c <= 'Z' then (c as int + 32) as char else c
  }

  /** Python's `s.lower()`, restricted to ASCII letters. */
  function Lower(s: string): (r: string)
    ensures |r| == |s|
    ensures forall i :: 0 <= i < |s| ==> r[i] == LowerChar(s[i])
    ensures forall i :: 0 <= i < |r| ==> !('A' <= r[i] <= 'Z')
  {
    seq(|s|, i requires 0 <= i < |s| => LowerChar(s[i]))
  }

  /** Lower-casing works character by character. */
  lemma LowerConcat(x: string, y: string)
    ensures Lower(x + y) == Lower(x) + Lower(y)
  {
    assert forall i :: 0 <= i < |x + y| ==> Lower(x + y)[i] == (Lower(x) + Lower(y))[i];
  }

  /** Python's `sep.join(parts)`. */
  function Join(parts: seq<string>, sep: string): (r: string)
    ensures |parts| == 1 ==> r == parts[0]
    decreases |parts|
  {
    if |parts| == 0 then ""
    else if |parts| == 1 then parts[0]
    else Join(parts[..|parts| - 1], sep) + sep + parts[|parts| - 1]
  }

  /** Each character of an occurrence belongs to the searched text. */
  lemma OccursChar(s: string, sub: string, j: nat, k: nat)
    requires OccursAt(s, sub, j) && j <= k < j + |sub|
    ensures s[k] in sub
  {
    assert s[k] == s[j..j + |sub|][k - j];
  }

  /** A text free of `c` occurs in two texts joined by `c` exactly when it
      occurs in one of them. */
  lemma ContainsAround(x: string, c: char, y: string, sub: string)
    requires |sub| > 0 && c !in sub
    ensures Contains(x + [c] + y, sub) <==> Contains(x, sub) || Contains(y, sub)
  {
    var s := x + [c] + y;
    if Contains(s, sub) {
      var j :| 0 <= j <= |s| && OccursAt(s, sub, j);
      if j + |sub| <= |x| {
        assert s[j..j + |sub|] == x[j..j + |sub|];
        assert OccursAt(x, sub, j);
      } else if j > |x| {
        var k := j - |x| - 1;
        assert s[j..j + |sub|] == y[k..k + |sub|];
        assert OccursAt(y, sub, k);
      } else {
        OccursChar(s, sub, j, |x|);
        assert false;
      }
    }
    if Contains(x, sub) {
      var j :| 0 <= j <= |x| && OccursAt(x, sub, j);
      assert s[j..j + |sub|] == x[j..j + |sub|];
      assert OccursAt(s, sub, j);
    }
    if Contains(y, sub) {
      var j :| 0 <= j <= |y| && OccursAt(y, sub, j);
      var k := j + |x| + 1;
      assert s[k..k + |sub|] == y[j..j + |sub|];
      assert OccursAt(s, sub, k);
    }
  }

  /** A text free of newlines occurs in the lower-cased newline join of some
      lines exactly when it occurs in one lower-cased line. */
  lemma {:induction false} JoinLowerContains(parts: seq<string>, sub: string)
    requires |sub| > 0 && '\n' !in sub
    ensures Contains(Lower(Join(parts, "\n")), sub)
      <==> exists i :: 0 <= i < |parts| && Contains(Lower(parts[i]), sub)
    decreases |parts|
  {
    if |parts| == 0 {
      assert !OccursAt(Lower(""), sub, 0);
    } else if |parts| > 1 {
      var n := |parts| - 1;
      var init := parts[..n];
      JoinLowerContains(init, sub);
      LowerJoinLast(parts);
      ContainsAround(Lower(Join(init, "\n")), '\n', Lower(parts[n]), sub);
      assert forall i :: 0 <= i < n ==> init[i] == parts[i];
    }
  }

  /** The lower-cased join ends with a newline and the last lower-cased line. */
  lemma LowerJoinLast(parts: seq<string>)
    requires |parts| > 1
    ensures Lower(Join(parts, "\n"))
      == Lower(Join(parts[..|parts| - 1], "\n")) + ['\n'] + Lower(parts[|parts| - 1])
  {
    var n := |parts| - 1;
    var init := Join(parts[..n], "\n");
    LowerConcat(init + "\n", parts[n]);
    LowerConcat(init, "\n");
    assert Lower("\n") == "\n";
  }

  /** Unpacking `a, b = s.split(" ")`: succeeds exactly when `s` holds one space. */
  function SplitPair(s: string): (r: Option<(string, string)>)
    ensures r.Some? ==> s == r.value.0 + " " + r.value.1
    ensures r.Some? ==> ' ' !in r.value.0 && ' ' !in r.value.1
    ensures r.None? ==> ' ' !in s || exists i, j :: 0 <= i < j < |s| && s[i] == ' ' && s[j] == ' '
  {
    match Find(s, " ")
    case None =>
      assert forall j :: 0 <= j < |s| ==> !OccursAt(s, " ", j);
      assert forall j :: 0 <= j < |s| ==> s[j] != ' ' by {
        forall j | 0 <= j < |s| ensures s[j] != ' ' {
          assert !OccursAt(s, " ", j);
          assert s[j..j + 1] == [s[j]] && " " == [' '];
        }
      }
      None
    case Some(i) =>
      var tail := s[i + 1..];
      assert forall j :: 0 <= j < i ==> s[..i][j] != ' ' by {
        forall j | 0 <= j < i ensures s[..i][j] != ' ' {
          assert !OccursAt(s, " ", j);
          assert s[j..j + 1] == [s[j]] && " " == [' '];
        }
      }
      if ' ' in tail then
        var j :| 0 <= j < |tail| && tail[j] == ' ';
        assert s[i] == ' ' && s[i + 1 + j] == ' ';
        None
      else
        assert s == s[..i] + " " + tail;
        Some((s[..i], tail))
  }

  // ---- facts about substring search used by the scenario lemmas ----

  /** Search for `sep` skips a leading part that lacks `sep`'s first character. */
  lemma FindShift(x: string, z: string, sep: string)
    requires |sep| > 0 && sep[0] !in x
    ensures Find(x + z, sep) == (match Find(z, sep) case Some(i) => Some(|x| + i) case None => None)
  {
    var s := x + z;
    forall j | 0 <= j < |x|
      ensures !OccursAt(s, sep, j)
    {
      if j + |sep| <= |s| {
        assert s[j..j + |sep|][0] == x[j];
      }
    }
    forall j | |x| <= j <= |s|
      ensures OccursAt(s, sep, j) <==> OccursAt(z, sep, j - |x|)
    {
      if j + |sep| <= |s| {
        assert s[j..j + |sep|] == z[j - |x|..j - |x| + |sep|];
      }
    }
    match Find(z, sep)
    case Some(i) =>
      assert OccursAt(s, sep, |x| + i);
      var k := Find(s, sep);
      assert k.Some?;
      assert k.value == |x| + i;
    case None =>
      assert Find(s, sep).None?;
  }

  /** Search past a first position at which `sep` does not start. */
  lemma FindSkipOne(s: string, sep: string)
    requires |s| > 0 && !OccursAt(s, sep, 0)
    ensures Find(s, sep) == (match Find(s[1..], sep) case Some(i) => Some(i + 1) case None => None)
  {
    FindFromTail(s, sep, 1);
  }

  /** Searching `s` from `k` is searching its tail from `k - 1`, shifted by one. */
  lemma {:induction false} FindFromTail(s: string, sep: string, k: nat)
    requires 1 <= k <= |s|
    ensures FindFrom(s, sep, k) == (match FindFrom(s[1..], sep, k - 1) case Some(i) => Some(i + 1) case None => None)
    decreases |s| - k
  {
    OccursShift(s, sep, k);
    if !OccursAt(s, sep, k) && k < |s| {
      FindFromTail(s, sep, k + 1);
    }
  }

  lemma OccursShift(s: string, sep: string, k: nat)
    requires 1 <= k <= |s|
    ensures OccursAt(s, sep, k) <==> OccursAt(s[1..], sep, k - 1)
  {
    if k + |sep| <= |s| {
      var t := s[1..];
      var a, b := s[k..k + |sep|], t[k - 1..k - 1 + |sep|];
      assert forall i :: 0 <= i < |sep| ==> a[i] == b[i];
      assert a == b;
    }
  }

  /** A one-character string occurs exactly when the character does. */
  lemma ContainsChar(s: string, c: char)
    ensures Contains(s, [c]) <==> c in s
  {
    if c in s {
      var i :| 0 <= i < |s| && s[i] == c;
      assert s[i..i + 1] == [c];
      assert OccursAt(s, [c], i);
    }
    if Contains(s, [c]) {
      var i := Find(s, [c]).value;
      assert s[i..i + 1][0] == s[i];
    }
  }

  /** `sub` is absent when one of its characters is missing from `s`. */
  lemma MissingChar(s: string, sub: string, k: nat)
    requires k < |sub| && sub[k] !in s
    ensures !Contains(s, sub)
  {
    forall j | 0 <= j && j + |sub| <= |s|
      ensures !OccursAt(s, sub, j)
    {
      assert s[j..j + |sub|][k] == s[j + k];
    }
  }

  /** An occurrence at a known position makes `sub` present. */
  lemma PresentAt(s: string, sub: string, j: nat)
    requires OccursAt(s, sub, j)
    ensures Contains(s, sub)
  {
  }

  /** The first `sep` after a part that lacks `sep`'s first character is the
      one that follows that part. */
  lemma FindAfter(x: string, sep: string, z: string)
    requires |sep| > 0 && sep[0] !in x
    ensures Find(x + sep + z, sep) == Some(|x|)
    ensures BeforeFirst(x + sep + z, sep) == x
    ensures AfterFirst(x + sep + z, sep) == Some(z)
  {
    assert x + sep + z == x + (sep + z);
    assert (sep + z)[0..|sep|] == sep;
    assert OccursAt(sep + z, sep, 0);
    FindShift(x, sep + z, sep);
    assert (x + sep + z)[..|x|] == x;
    assert (x + sep + z)[|x| + |sep|..] == z;
  }

  /** `s.split(sep)[0]` is all of `s` when `sep` is absent. */
  lemma BeforeMissing(s: string, sep: string)
    requires !Contains(s, sep)
    ensures BeforeFirst(s, sep) == s
  {
  }

  /** Unpacking two space-free words joined by one space gives them back. */
  lemma SplitPairOf(a: string, b: string)
    requires ' ' !in a && ' ' !in b
    ensures SplitPair(a + " " + b) == Some((a, b))
  {
    FindAfter(a, " ", b);
  }

  /** The text after the last `c` when `y` lacks `c`. */
  lemma {:induction false} AfterLastOf(x: string, c: char, y: string)
    requires c !in y
    ensures AfterLast(x + [c] + y, c) == y
    decreases |y|
  {
    var s := x + [c] + y;
    if |y| == 0 {
      assert s[|s| - 1] == c;
    } else {
      var y' := y[..|y| - 1];
      assert s[..|s| - 1] == x + [c] + y';
      assert s[|s| - 1] == y[|y| - 1];
      AfterLastOf(x, c, y');
      assert y' + [y[|y| - 1]] == y;
    }
  }

  /** A space-free prefix survives cutting at the first space. */
  lemma PrefixBeforeSpace(s: string, p: string)
    requires StartsWith(s, p) && ' ' !in p
    ensures StartsWith(BeforeFirst(s, " "), p)
  {
    match Find(s, " ")
    case None =>
    case Some(i) =>
      assert s[i..i + 1] == " ";
      assert s[i] == ' ';
      assert i >= |p| by {
        assert forall j :: 0 <= j < |p| ==> s[j] == p[j];
      }
      assert s[..i][..|p|] == p;
  }
}
