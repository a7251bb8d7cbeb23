/**
 * The few pieces of the .NET string library that the core relies on:
 * character classes (`char.IsWhiteSpace`, the regular-expression classes `\s` and `\W`),
 * `ToLower`, ordinal-ignore-case containment, `Split`, `Trim`, `Regex.Replace(s, cls + "+", " ")`
 * and `int.ToString()`.
 */
module Text {

  // ---------------------------------------------------------------------------
  // Character classes
  // ---------------------------------------------------------------------------

  /** `char.IsWhiteSpace`, which is also the regular-expression class `\s` of .NET:
      the Unicode separators (Zs, Zl, Zp) and the controls U+0009..U+000D and U+0085. */
  predicate IsWhiteSpace(c: char) {
    var x := c as int;
    x == 0x20 || 0x09 <= x <= 0x0D || x == 0x85 || x == 0xA0 || x == 0x1680
    || 0x2000 <= x <= 0x200A || x == 0x2028 || x == 0x2029 || x == 0x202F
    || x == 0x205F || x == 0x3000
  }

  predicate IsNotWhiteSpace(c: char) { !IsWhiteSpace(c) }

  /** The regular-expression class `\w`, restricted to ASCII: letters, digits and '_'. */
  predicate IsWordChar(c: char) {
    'a' <= c <= 'z' || 'A' <= c <= 'Z' || '0' <= c <= '9' || c == '_'
  }

  /** The regular-expression class `\W`. */
  predicate IsNonWordChar(c: char) { !IsWordChar(c) }

  predicate IsSpace(c: char) { c == ' ' }

  predicate IsUpper(c: char) { 'A' <= c <= 'Z' }

  /** `char.ToLower` on ASCII letters; every other character is left as it is. */
  function LowerChar(c: char): (r: char)
    ensures !IsUpper(r)
    ensures IsUpper(c) || r == c
    ensures IsWordChar(r) <==> IsWordChar(c)
    ensures IsWhiteSpace(r) <==> IsWhiteSpace(c)
  {
    if IsUpper(c) then (c as int + 32) as char else c
  }

  /** `string.ToLower`, character by character. */
  function Lower(s: string): (r: string)
    ensures |r| == |s|
    ensures forall i :: 0 <= i < |s| ==> r[i] == LowerChar(s[i])
  {
    seq(|s|, i requires 0 <= i < |s| => LowerChar(s[i]))
  }

  lemma LowerOfConcat(a: string, b: string)
    ensures Lower(a + b) == Lower(a) + Lower(b)
  {
  }

  // ---------------------------------------------------------------------------
  // Containment
  // ---------------------------------------------------------------------------

  /** `s.Contains(sub)` with ordinal comparison: `sub` occurs at some position of `s`. */
  predicate Contains(s: string, sub: string) {
    exists i | 0 <= i <= |s| - |sub| :: OccursAt(s, sub, i)
  }

  /** `sub` occurs in `s` starting at position `i`. */
  predicate OccursAt(s: string, sub: string, i: int) {
    0 <= i <= |s| - |sub| && s[i..i + |sub|] == sub
  }

  /** `s.Contains(sub, StringComparison.OrdinalIgnoreCase)`. */
  predicate ContainsIgnoreCase(s: string, sub: string) {
    Contains(Lower(s), Lower(sub))
  }

  lemma EmptyIsContained(s: string)
    ensures ContainsIgnoreCase(s, "")
  {
    assert OccursAt(Lower(s), Lower(""), 0);
  }

  // ---------------------------------------------------------------------------
  // Split and Join
  // ---------------------------------------------------------------------------

  /** `s.Split(...)` for a class of separator characters: the pieces between the separators,
      empty pieces included, so that there is always at least one piece. */
  function SplitWhere(s: string, isSep: char -> bool): (pieces: seq<string>)
    ensures |pieces| >= 1
    ensures forall k, j :: 0 <= k < |pieces| && 0 <= j < |pieces[k]| ==> !isSep(pieces[k][j])
    decreases |s|
  {
    if |s| == 0 then [""]
    else
      var rest := SplitWhere(s[1..], isSep);
      if isSep(s[0]) then [""] + rest
      else
        var first := [s[0]] + rest[0];
        assert forall j :: 0 < j < |first| ==> first[j] == rest[0][j - 1];
        [first] + rest[1..]
  }

  /** `string.Join(sep, pieces)`. */
  function Join(pieces: seq<string>, sep: char): string
  {
    if |pieces| == 0 then ""
    else if |pieces| == 1 then pieces[0]
    else pieces[0] + [sep] + Join(pieces[1..], sep)
  }

  /** The number of separator characters in `s`. */
  function CountWhere(s: string, isSep: char -> bool): nat
  {
    if |s| == 0 then 0 else (if isSep(s[0]) then 1 else 0) + CountWhere(s[1..], isSep)
  }

  /** Splitting on a single separator character and joining back gives the text again. */
  lemma {:induction false} JoinSplit(s: string, sep: char, isSep: char -> bool)
    requires forall c :: isSep(c) <==> c == sep
    ensures Join(SplitWhere(s, isSep), sep) == s
    ensures |SplitWhere(s, isSep)| == CountWhere(s, isSep) + 1
    decreases |s|
  {
    if |s| > 0 {
      JoinSplit(s[1..], sep, isSep);
      if isSep(s[0]) {
        JoinSplitAtSeparator(s, sep, isSep);
      } else {
        JoinSplitAtChar(s, sep, isSep);
      }
    }
  }

  /** The step of `JoinSplit` for a text that starts with the separator. */
  lemma JoinSplitAtSeparator(s: string, sep: char, isSep: char -> bool)
    requires |s| > 0 && isSep(s[0]) && s[0] == sep
    requires Join(SplitWhere(s[1..], isSep), sep) == s[1..]
    requires |SplitWhere(s[1..], isSep)| == CountWhere(s[1..], isSep) + 1
    ensures Join(SplitWhere(s, isSep), sep) == s
    ensures |SplitWhere(s, isSep)| == CountWhere(s, isSep) + 1
  {
    var rest := SplitWhere(s[1..], isSep);
    assert SplitWhere(s, isSep) == [""] + rest;
    assert ([""] + rest)[1..] == rest;
    assert s == [sep] + s[1..];
  }

  /** The step of `JoinSplit` for a text that starts with another character. */
  lemma JoinSplitAtChar(s: string, sep: char, isSep: char -> bool)
    requires |s| > 0 && !isSep(s[0])
    requires Join(SplitWhere(s[1..], isSep), sep) == s[1..]
    requires |SplitWhere(s[1..], isSep)| == CountWhere(s[1..], isSep) + 1
    ensures Join(SplitWhere(s, isSep), sep) == s
    ensures |SplitWhere(s, isSep)| == CountWhere(s, isSep) + 1
  {
    var rest := SplitWhere(s[1..], isSep);
    var pieces := SplitWhere(s, isSep);
    assert pieces == [[s[0]] + rest[0]] + rest[1..];
    assert pieces[1..] == rest[1..];
    if |rest| == 1 {
      assert s == [s[0]] + rest[0];
    } else {
      assert Join(rest, sep) == rest[0] + [sep] + Join(rest[1..], sep);
      assert s == [s[0]] + s[1..];
    }
  }

  /** Joining pieces that contain no separator and splitting again gives the pieces back. */
  lemma {:induction false} SplitJoin(pieces: seq<string>, sep: char, isSep: char -> bool)
    requires |pieces| >= 1
    requires isSep(sep)
    requires forall k, j :: 0 <= k < |pieces| && 0 <= j < |pieces[k]| ==> !isSep(pieces[k][j])
    ensures SplitWhere(Join(pieces, sep), isSep) == pieces
    decreases |pieces|, |pieces[0]|
  {
    var p := pieces[0];
    if |p| == 0 {
      if |pieces| > 1 {
        SplitJoin(pieces[1..], sep, isSep);
        SplitJoinEmptyFirst(pieces, sep, isSep);
      }
    } else {
      var shorter := [p[1..]] + pieces[1..];
      NoSeparatorAfterFirstChar(pieces, isSep);
      SplitJoin(shorter, sep, isSep);
      SplitJoinCharFirst(pieces, sep, isSep);
    }
  }

  lemma NoSeparatorAfterFirstChar(pieces: seq<string>, isSep: char -> bool)
    requires |pieces| >= 1 && |pieces[0]| > 0
    requires forall k, j :: 0 <= k < |pieces| && 0 <= j < |pieces[k]| ==> !isSep(pieces[k][j])
    ensures var shorter := [pieces[0][1..]] + pieces[1..];
      forall k, j :: 0 <= k < |shorter| && 0 <= j < |shorter[k]| ==> !isSep(shorter[k][j])
  {
    var shorter := [pieces[0][1..]] + pieces[1..];
    forall k, j | 0 <= k < |shorter| && 0 <= j < |shorter[k]| ensures !isSep(shorter[k][j]) {
      if k == 0 { assert shorter[k][j] == pieces[0][j + 1]; } else { assert shorter[k] == pieces[k]; }
    }
  }

  /** The step of `SplitJoin` when the first piece is empty. */
  lemma SplitJoinEmptyFirst(pieces: seq<string>, sep: char, isSep: char -> bool)
    requires |pieces| > 1 && |pieces[0]| == 0 && isSep(sep)
    requires SplitWhere(Join(pieces[1..], sep), isSep) == pieces[1..]
    ensures SplitWhere(Join(pieces, sep), isSep) == pieces
  {
    var tail := Join(pieces[1..], sep);
    assert Join(pieces, sep) == [sep] + tail;
    assert ([sep] + tail)[1..] == tail;
    assert [""] + pieces[1..] == pieces;
  }

  /** The step of `SplitJoin` when the first piece starts with a character. */
  lemma SplitJoinCharFirst(pieces: seq<string>, sep: char, isSep: char -> bool)
    requires |pieces| >= 1 && |pieces[0]| > 0 && !isSep(pieces[0][0])
    requires var shorter := [pieces[0][1..]] + pieces[1..];
      SplitWhere(Join(shorter, sep), isSep) == shorter
    ensures SplitWhere(Join(pieces, sep), isSep) == pieces
  {
    var p := pieces[0];
    var shorter := [p[1..]] + pieces[1..];
    var s := Join(pieces, sep);
    assert shorter[1..] == pieces[1..];
    assert Join(shorter, sep) == s[1..];
    assert s[0] == p[0];
    var rest := SplitWhere(s[1..], isSep);
    assert rest == shorter;
    assert [p[0]] + p[1..] == p;
    assert [[s[0]] + rest[0]] + rest[1..] == pieces;
  }

  // ---------------------------------------------------------------------------
  // Filtering, dropping and trimming
  // ---------------------------------------------------------------------------

  /** The characters of `s` that satisfy `keep`, in their order. */
  function Filter(s: string, keep: char -> bool): (r: string)
    ensures |r| <= |s|
    ensures forall j :: 0 <= j < |r| ==> keep(r[j])
  {
    if |s| == 0 then "" else (if keep(s[0]) then [s[0]] else "") + Filter(s[1..], keep)
  }

  lemma {:induction false} FilterConcat(a: string, b: string, keep: char -> bool)
    ensures Filter(a + b, keep) == Filter(a, keep) + Filter(b, keep)
    decreases |a|
  {
    if |a| > 0 {
      assert (a + b)[0] == a[0];
      assert (a + b)[1..] == a[1..] + b;
      FilterConcat(a[1..], b, keep);
    } else {
      assert a + b == b;
    }
  }

  lemma {:induction false} FilterNone(s: string, keep: char -> bool)
    requires forall j :: 0 <= j < |s| ==> !keep(s[j])
    ensures Filter(s, keep) == ""
    decreases |s|
  {
    if |s| > 0 { FilterNone(s[1..], keep); }
  }

  lemma {:induction false} FilterAll(s: string, keep: char -> bool)
    requires forall j :: 0 <= j < |s| ==> keep(s[j])
    ensures Filter(s, keep) == s
    decreases |s|
  {
    if |s| > 0 {
      FilterAll(s[1..], keep);
      assert [s[0]] + s[1..] == s;
    }
  }

  /** The longest suffix of `s` that does not start with a character satisfying `p`. */
  function DropWhile(s: string, p: char -> bool): (r: string)
    ensures |r| <= |s| && r == s[|s| - |r|..]
    ensures forall i :: 0 <= i < |s| - |r| ==> p(s[i])
    ensures r == "" || !p(r[0])
    decreases |s|
  {
    if |s| > 0 && p(s[0]) then DropWhile(s[1..], p) else s
  }

  /** The longest prefix of `s` that does not end with a character satisfying `p`. */
  function DropWhileEnd(s: string, p: char -> bool): (r: string)
    ensures |r| <= |s| && r == s[..|r|]
    ensures forall i :: |r| <= i < |s| ==> p(s[i])
    ensures r == "" || !p(r[|r| - 1])
    decreases |s|
  {
    if |s| > 0 && p(s[|s| - 1]) then DropWhileEnd(s[..|s| - 1], p) else s
  }

  /** `string.Trim()`: leading and trailing white space removed. */
  function Trim(s: string): string {
    DropWhileEnd(DropWhile(s, IsWhiteSpace), IsWhiteSpace)
  }

  // ---------------------------------------------------------------------------
  // Collapsing runs of separators
  // ---------------------------------------------------------------------------

  /** `Regex.Replace(s, cls + "+", " ")`: every maximal run of characters of the class
      `isSep` is replaced by one space. */
  function CollapseRuns(s: string, isSep: char -> bool): (r: string)
    decreases |s|
  {
    if |s| == 0 then ""
    else if isSep(s[0]) then " " + CollapseRuns(DropWhile(s[1..], isSep), isSep)
    else [s[0]] + CollapseRuns(s[1..], isSep)
  }

  /** Every separator character is a space and no two of them are adjacent. */
  ghost predicate Collapsed(s: string, isSep: char -> bool) {
    && (forall i :: 0 <= i < |s| && isSep(s[i]) ==> s[i] == ' ')
    && (forall i :: 0 < i < |s| && isSep(s[i]) ==> !isSep(s[i - 1]))
  }

  lemma ConsCollapsed(c: char, r: string, isSep: char -> bool)
    requires Collapsed(r, isSep)
    requires isSep(c) ==> c == ' ' && (r == "" || !isSep(r[0]))
    ensures Collapsed([c] + r, isSep)
  {
    var s := [c] + r;
    forall i | 0 < i < |s| && isSep(s[i]) ensures !isSep(s[i - 1]) {
      assert s[i] == r[i - 1];
      if i > 1 { assert s[i - 1] == r[i - 2]; }
    }
    forall i | 0 <= i < |s| && isSep(s[i]) ensures s[i] == ' ' {
      if i > 0 { assert s[i] == r[i - 1]; }
    }
  }

  lemma {:induction false} CollapseRunsShape(s: string, isSep: char -> bool)
    requires isSep(' ')
    ensures Collapsed(CollapseRuns(s, isSep), isSep)
    ensures |s| > 0 && !isSep(s[0]) ==> CollapseRuns(s, isSep)[0] == s[0]
    ensures |s| > 0 <==> |CollapseRuns(s, isSep)| > 0
    decreases |s|
  {
    if |s| > 0 {
      if isSep(s[0]) {
        var d := DropWhile(s[1..], isSep);
        CollapseRunsShape(d, isSep);
        ConsCollapsed(' ', CollapseRuns(d, isSep), isSep);
      } else {
        CollapseRunsShape(s[1..], isSep);
        ConsCollapsed(s[0], CollapseRuns(s[1..], isSep), isSep);
      }
    }
  }

  /** Collapsing keeps every non-separator character, in order. */
  lemma {:induction false} CollapseRunsKeeps(s: string, isSep: char -> bool, keep: char -> bool)
    requires forall c :: keep(c) <==> !isSep(c)
    requires isSep(' ')
    ensures Filter(CollapseRuns(s, isSep), keep) == Filter(s, keep)
    decreases |s|
  {
    if |s| > 0 {
      if isSep(s[0]) {
        CollapseRunsKeeps(DropWhile(s[1..], isSep), isSep, keep);
        KeepsAfterSeparator(s, isSep, keep);
      } else {
        CollapseRunsKeeps(s[1..], isSep, keep);
        KeepsAfterKept(s, isSep, keep);
      }
    }
  }

  /** The step of `CollapseRunsKeeps` for a text that starts with a separator. */
  lemma KeepsAfterSeparator(s: string, isSep: char -> bool, keep: char -> bool)
    requires |s| > 0 && isSep(s[0]) && isSep(' ')
    requires forall c :: keep(c) <==> !isSep(c)
    requires var d := DropWhile(s[1..], isSep); Filter(CollapseRuns(d, isSep), keep) == Filter(d, keep)
    ensures Filter(CollapseRuns(s, isSep), keep) == Filter(s, keep)
  {
    var tail := CollapseRuns(DropWhile(s[1..], isSep), isSep);
    FilterDropSeparators(s[1..], isSep, keep);
    assert (" " + tail)[1..] == tail;
  }

  /** Dropping leading separators keeps the kept characters. */
  lemma {:induction false} FilterDropSeparators(t: string, isSep: char -> bool, keep: char -> bool)
    requires forall c :: keep(c) <==> !isSep(c)
    ensures Filter(DropWhile(t, isSep), keep) == Filter(t, keep)
    decreases |t|
  {
    if |t| > 0 && isSep(t[0]) {
      FilterDropSeparators(t[1..], isSep, keep);
    }
  }

  /** The step of `CollapseRunsKeeps` for a text that starts with a kept character. */
  lemma KeepsAfterKept(s: string, isSep: char -> bool, keep: char -> bool)
    requires |s| > 0 && !isSep(s[0])
    requires Filter(CollapseRuns(s[1..], isSep), keep) == Filter(s[1..], keep)
    ensures Filter(CollapseRuns(s, isSep), keep) == Filter(s, keep)
  {
    var t := s[1..];
    var tail := CollapseRuns(t, isSep);
    assert s == [s[0]] + t;
    FilterCons(s[0], t, keep);
    assert CollapseRuns(s, isSep) == [s[0]] + tail;
    FilterCons(s[0], tail, keep);
  }

  lemma FilterCons(c: char, rest: string, keep: char -> bool)
    ensures Filter([c] + rest, keep) == (if keep(c) then [c] else "") + Filter(rest, keep)
  {
    assert ([c] + rest)[1..] == rest;
  }

  /** A text that is already collapsed is a fixed point of collapsing. */
  lemma {:induction false} CollapseRunsOfCollapsed(s: string, isSep: char -> bool)
    requires Collapsed(s, isSep)
    ensures CollapseRuns(s, isSep) == s
    decreases |s|
  {
    if |s| > 0 {
      var t := s[1..];
      assert Collapsed(t, isSep) by {
        forall i | 0 < i < |t| && isSep(t[i]) ensures !isSep(t[i - 1]) {
          assert t[i] == s[i + 1] && t[i - 1] == s[i];
        }
      }
      CollapseRunsOfCollapsed(t, isSep);
      if isSep(s[0]) {
        if |t| > 0 { assert t[0] == s[1]; }
        assert DropWhile(t, isSep) == t;
      }
      assert [s[0]] + t == s;
    }
  }

  lemma CollapsedSlice(s: string, isSep: char -> bool, a: nat, b: nat)
    requires Collapsed(s, isSep)
    requires a <= b <= |s|
    ensures Collapsed(s[a..b], isSep)
  {
    var t := s[a..b];
    forall i | 0 < i < |t| && isSep(t[i]) ensures !isSep(t[i - 1]) {
      assert t[i] == s[a + i] && t[i - 1] == s[a + i - 1];
    }
    forall i | 0 <= i < |t| && isSep(t[i]) ensures t[i] == ' ' {
      assert t[i] == s[a + i];
    }
  }

  // ---------------------------------------------------------------------------
  // Integers as text
  // ---------------------------------------------------------------------------

  function DigitChar(d: nat): (c: char)
    requires d < 10
    ensures '0' <= c <= '9'
  {
    (48 + d) as char
  }

  /** The decimal digits of `n`, most significant first, without leading zeros. */
  function NatToString(n: nat): (r: string)
    ensures |r| >= 1
    ensures forall i :: 0 <= i < |r| ==> '0' <= r[i] <= '9'
    ensures (|r| == 1) == (n < 10)
  {
    if n < 10 then [DigitChar(n)] else NatToString(n / 10) + [DigitChar(n % 10)]
  }

  /** `int.ToString()` with the invariant culture: an optional '-' and the decimal digits. */
  function IntToString(i: int): (r: string)
    ensures |r| >= 1
    ensures forall j :: 0 <= j < |r| ==> r[j] == '-' || '0' <= r[j] <= '9'
    ensures (r[0] == '-') == (i < 0)
  {
    if i < 0 then "-" + NatToString(-i) else NatToString(i)
  }

  lemma {:induction false} NatToStringInjective(a: nat, b: nat)
    requires NatToString(a) == NatToString(b)
    ensures a == b
  {
    var ra, rb := NatToString(a), NatToString(b);
    if a >= 10 && b >= 10 {
      assert ra[..|ra| - 1] == NatToString(a / 10);
      assert rb[..|rb| - 1] == NatToString(b / 10);
      NatToStringInjective(a / 10, b / 10);
      assert DigitChar(a % 10) == ra[|ra| - 1] == DigitChar(b % 10);
    } else if a < 10 && b < 10 {
      assert DigitChar(a) == ra[0] == DigitChar(b);
    }
  }

  /** Different integers have different decimal representations. */
  lemma IntToStringInjective(a: int, b: int)
    requires IntToString(a) == IntToString(b)
    ensures a == b
  {
    var ra := IntToString(a);
    if a < 0 && b < 0 {
      assert ra[1..] == NatToString(-a) == NatToString(-b);
      NatToStringInjective(-a, -b);
    } else {
      NatToStringInjective(a, b);
    }
  }
}
