/** Character classes and string helpers shared by the annotator, the
    phrase index and the search filters.  Strings are sequences of Unicode
    scalar values; case mapping covers the ASCII letters only. */
module Text {

  /** The characters JavaScript's `String.prototype.trim` removes and the
      regular-expression class `\s` matches: WhiteSpace and LineTerminator. */
  predicate IsSpace(c: char) {
    || c == '\t' || c == '\n' || c == '\U{000B}' || c == '\U{000C}' || c == '\r'
    || c == ' ' || c == '\U{00A0}' || c == '\U{1680}'
    || ('\U{2000}' <= c <= '\U{200A}')
    || c == '\U{2028}' || c == '\U{2029}' || c == '\U{202F}' || c == '\U{205F}'
    || c == '\U{3000}' || c == '\U{FEFF}'
  }

  predicate IsUpper(c: char) { 'A' <= c <= 'Z' }

  predicate IsLetter(c: char) { 'A' <= c <= 'Z' || 'a' <= c <= 'z' }

  predicate IsDigit(c: char) { '0' <= c <= '9' }

  /** The regular-expression class `\w` without the `u` flag: `[A-Za-z0-9_]`. */
  predicate IsWordChar(c: char) { IsLetter(c) || IsDigit(c) || c == '_' }

  function LowerChar(c: char): (r: char)
    ensures !IsUpper(r)
    ensures IsLetter(r) <==> IsLetter(c)
    ensures IsSpace(r) <==> IsSpace(c)
    ensures !IsUpper(c) ==> r == c
  {
    if IsUpper(c) then (c as int + 32) as char else c
  }

  /** `String.prototype.toLowerCase` on ASCII letters. */
  function Lower(s: string): (r: string)
    ensures |r| == |s|
    ensures forall i :: 0 <= i < |s| ==> r[i] == LowerChar(s[i])
  {
    seq(|s|, i requires 0 <= i < |s| => LowerChar(s[i]))
  }

  predicate IsLowerCase(s: string) {
    forall i :: 0 <= i < |s| ==> !IsUpper(s[i])
  }

  /** Case-insensitive equality as the `i` flag of a regular expression decides it. */
  predicate EqIgnoreCase(a: string, b: string)
    decreases |a|
  {
    |a| == |b| && (a == [] || (LowerChar(a[0]) == LowerChar(b[0]) && EqIgnoreCase(a[1..], b[1..])))
  }

  /** Equal up to case means equal once lower-cased. */
  lemma {:induction false} EqIgnoreCaseLower(a: string, b: string)
    ensures EqIgnoreCase(a, b) <==> Lower(a) == Lower(b)
    decreases |a|
  {
    if |a| == |b| && a != [] {
      EqIgnoreCaseLower(a[1..], b[1..]);
      assert Lower(a) == [LowerChar(a[0])] + Lower(a[1..]);
      assert Lower(b) == [LowerChar(b[0])] + Lower(b[1..]);
      if Lower(a) == Lower(b) {
        assert Lower(a)[1..] == Lower(b)[1..];
      }
    }
  }

  lemma LowerIdempotent(s: string)
    ensures IsLowerCase(Lower(s))
    ensures IsLowerCase(s) ==> Lower(s) == s
  {
  }

  predicate AllSpace(s: string) {
    forall i :: 0 <= i < |s| ==> IsSpace(s[i])
  }

  /** `s` without its leading whitespace. */
  function TrimStart(s: string): (r: string)
    ensures |r| <= |s|
    ensures r == [] || !IsSpace(r[0])
    decreases |s|
  {
    if s != [] && IsSpace(s[0]) then TrimStart(s[1..]) else s
  }

  /** `s` without its trailing whitespace; the first character, if kept, is unchanged. */
  function TrimEnd(s: string): (r: string)
    ensures |r| <= |s|
    ensures r == [] || (r[0] == s[0] && !IsSpace(r[|r| - 1]))
    decreases |s|
  {
    if s != [] && IsSpace(s[|s| - 1]) then TrimEnd(s[..|s| - 1]) else s
  }

  lemma {:induction false} TrimStartCuts(s: string)
    ensures TrimStart(s) == s[|s| - |TrimStart(s)|..]
    ensures AllSpace(s[..|s| - |TrimStart(s)|])
    decreases |s|
  {
    if s != [] && IsSpace(s[0]) {
      TrimStartCuts(s[1..]);
      var n := |s| - |TrimStart(s)|;
      assert s[1..][n - 1..] == s[n..];
      assert forall i :: 1 <= i < n ==> s[i] == s[1..][..n - 1][i - 1];
    }
  }

  lemma {:induction false} TrimEndCuts(s: string)
    ensures TrimEnd(s) == s[..|TrimEnd(s)|]
    ensures AllSpace(s[|TrimEnd(s)|..])
    decreases |s|
  {
    if s != [] && IsSpace(s[|s| - 1]) {
      var init := s[..|s| - 1];
      TrimEndCuts(init);
      var n := |TrimEnd(s)|;
      assert init[..n] == s[..n];
      assert forall i :: n <= i < |s| - 1 ==> s[i] == init[n..][i - n];
    }
  }

  predicate Trimmed(s: string) {
    s == [] || (!IsSpace(s[0]) && !IsSpace(s[|s| - 1]))
  }

  /** `String.prototype.trim`. */
  function Trim(s: string): (r: string)
    ensures Trimmed(r)
  {
    TrimEnd(TrimStart(s))
  }

  /** How many whitespace characters `trim` cuts off the front. */
  function TrimOffset(s: string): nat {
    |s| - |TrimStart(s)|
  }

  /** `trim` keeps the longest infix of `s` that neither starts nor ends
      with whitespace: everything it cuts off is whitespace. */
  lemma TrimCuts(s: string)
    ensures TrimOffset(s) + |Trim(s)| <= |s|
    ensures Trim(s) == s[TrimOffset(s)..TrimOffset(s) + |Trim(s)|]
    ensures AllSpace(s[..TrimOffset(s)]) && AllSpace(s[TrimOffset(s) + |Trim(s)|..])
  {
    var a := TrimStart(s);
    var r := TrimEnd(a);
    var i := TrimOffset(s);
    TrimStartCuts(s);
    TrimEndCuts(a);
    assert r == s[i..i + |r|];
    assert s[i + |r|..] == a[|r|..];
  }

  lemma TrimOfTrimmed(s: string)
    requires Trimmed(s)
    ensures Trim(s) == s
  {
  }

  /** The normal form of every key in the application: trimmed, then lower-cased. */
  function Normalize(s: string): (r: string)
    ensures Trimmed(r) && IsLowerCase(r)
  {
    var t := Trim(s);
    LowerIdempotent(t);
    Lower(t)
  }

  lemma NormalizeIdempotent(s: string)
    ensures Normalize(Normalize(s)) == Normalize(s)
  {
    var r := Normalize(s);
    TrimOfTrimmed(r);
    LowerIdempotent(r);
  }

  predicate HasSpace(s: string) {
    exists i :: 0 <= i < |s| && IsSpace(s[i])
  }

  /** The number of maximal whitespace runs in `s`, each counted at its last character. */
  function SpaceRuns(s: string): nat
    decreases |s|
  {
    if s == [] then 0
    else (if IsSpace(s[0]) && (|s| == 1 || !IsSpace(s[1])) then 1 else 0) + SpaceRuns(s[1..])
  }

  /** `s.split(/\s+/).length`: one more piece than there are whitespace runs. */
  function SplitCount(s: string): nat {
    SpaceRuns(s) + 1
  }

  lemma {:induction false} SpaceRunsPositive(s: string)
    ensures SpaceRuns(s) > 0 <==> HasSpace(s)
    decreases |s|
  {
    if s != [] {
      SpaceRunsPositive(s[1..]);
      if HasSpace(s[1..]) {
        var i :| 0 <= i < |s[1..]| && IsSpace(s[1..][i]);
        assert IsSpace(s[i + 1]);
      }
      if HasSpace(s) && !IsSpace(s[0]) {
        var i :| 0 <= i < |s| && IsSpace(s[i]);
        assert IsSpace(s[1..][i - 1]);
      }
      if IsSpace(s[0]) && |s| > 1 && IsSpace(s[1]) {
        assert IsSpace(s[1..][0]);
      }
    }
  }

  /** A trimmed string splits on whitespace into at least two pieces exactly
      when it contains whitespace, and then its first and last pieces are not empty. */
  lemma SplitCountOfTrimmed(s: string)
    requires Trimmed(s)
    ensures SplitCount(s) >= 2 <==> HasSpace(s)
    ensures SplitCount(s) >= 2 ==> |s| >= 3 && !IsSpace(s[0]) && !IsSpace(s[|s| - 1])
  {
    SpaceRunsPositive(s);
    if HasSpace(s) {
      var i :| 0 <= i < |s| && IsSpace(s[i]);
      assert 0 < i < |s| - 1;
    }
  }

  /** `s.startsWith(p)`. */
  predicate StartsWith(s: string, p: string) {
    |p| <= |s| && s[..|p|] == p
  }

  /** `needle` occurs in `hay` starting at index `i`. */
  predicate OccursAt(needle: string, hay: string, i: int) {
    0 <= i && i + |needle| <= |hay| && hay[i..i + |needle|] == needle
  }

  /** `String.prototype.includes`. */
  function Contains(hay: string, needle: string): (r: bool)
    ensures r <==> exists i :: OccursAt(needle, hay, i)
    decreases |hay|
  {
    OccursAtStart(needle, hay);
    if StartsWith(hay, needle) then true
    else if hay == [] then false
    else
      var r := Contains(hay[1..], needle);
      OccursShift(needle, hay);
      r
  }

  lemma OccursAtStart(needle: string, hay: string)
    ensures OccursAt(needle, hay, 0) <==> StartsWith(hay, needle)
    ensures hay == [] ==> forall i :: OccursAt(needle, hay, i) ==> i == 0
  {
    if |needle| <= |hay| {
      assert hay[0..|needle|] == hay[..|needle|];
    }
  }

  /** Occurrences in the tail are the occurrences past the first position. */
  lemma OccursShift(needle: string, hay: string)
    requires hay != []
    ensures forall i :: OccursAt(needle, hay, i) && i > 0 ==> OccursAt(needle, hay[1..], i - 1)
    ensures forall i :: OccursAt(needle, hay[1..], i) ==> OccursAt(needle, hay, i + 1)
  {
    forall i | 0 <= i ensures OccursAt(needle, hay[1..], i) <==> OccursAt(needle, hay, i + 1) {
      if i + |needle| <= |hay| - 1 {
        assert hay[1..][i..i + |needle|] == hay[i + 1..i + 1 + |needle|];
      }
    }
  }

  /** `String.prototype.length`: UTF-16 code units, so a character outside
      the Basic Multilingual Plane counts twice. */
  function JsLength(s: string): (n: nat)
    ensures n >= |s|
    ensures (forall i :: 0 <= i < |s| ==> s[i] as int <= 0xFFFF) ==> n == |s|
    decreases |s|
  {
    if s == [] then 0
    else
      var rest := JsLength(s[1..]);
      assert forall i :: 0 <= i < |s| - 1 ==> s[1..][i] == s[i + 1];
      (if s[0] as int > 0xFFFF then 2 else 1) + rest
  }

  /** An emoji is one character here but two code units in JavaScript. */
  lemma JsLengthExample()
    ensures |"ab \U{1F600}"| == 4 && JsLength("ab \U{1F600}") == 5
    ensures JsLength("abc d") == 5
  {
    assert "ab \U{1F600}"[1..] == "b \U{1F600}";
    assert "b \U{1F600}"[1..] == " \U{1F600}";
    assert " \U{1F600}"[1..] == "\U{1F600}";
    assert "\U{1F600}"[1..] == "";
  }

  function DigitChar(d: nat): (c: char)
    requires d < 10
    ensures IsDigit(c)
  {
    ('0' as int + d) as char
  }

  /** Decimal rendering of a natural number, as `${n}` prints it. */
  function Decimal(n: nat): (r: string)
    ensures |r| >= 1
    ensures forall i :: 0 <= i < |r| ==> IsDigit(r[i])
    ensures (|r| == 1) <==> n < 10
  {
    if n < 10 then [DigitChar(n)] else Decimal(n / 10) + [DigitChar(n % 10)]
  }

  lemma {:induction false} DecimalInjective(a: nat, b: nat)
    requires Decimal(a) == Decimal(b)
    ensures a == b
    decreases a
  {
    if a >= 10 && b >= 10 {
      var da, db := Decimal(a), Decimal(b);
      assert da[..|da| - 1] == Decimal(a / 10);
      assert db[..|db| - 1] == Decimal(b / 10);
      DecimalInjective(a / 10, b / 10);
      assert DigitChar(a % 10) == da[|da| - 1] == db[|db| - 1] == DigitChar(b % 10);
    }
  }
}
