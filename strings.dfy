/** String helpers the controller relies on: Go's `strings.Contains`,
    `strings.TrimSpace` and `strings.Join`, stated over `seq<char>`. */
module Strings {

  /** Every code point that Go's `unicode.IsSpace` accepts. `TrimSpace` in Go
      trims exactly these; the model takes the whitespace set as a parameter
      and uses this one in the concrete scenarios. */
  const UnicodeSpace: set<char> :=
    {' ', '\t', '\n', '\r', '\U{0B}', '\U{0C}', '\U{85}', '\U{A0}', '\U{1680}',
     '\U{2000}', '\U{2001}', '\U{2002}', '\U{2003}', '\U{2004}', '\U{2005}',
     '\U{2006}', '\U{2007}', '\U{2008}', '\U{2009}', '\U{200A}', '\U{2028}',
     '\U{2029}', '\U{202F}', '\U{205F}', '\U{3000}'}

  /** `sub` occurs in `s` at some position (Go's `strings.Contains`). */
  predicate Contains(s: string, sub: string) {
    exists i :: 0 <= i <= |s| - |sub| && OccursAt(s, sub, i)
  }

  /** `sub` is the slice of `s` that starts at index `i`. */
  predicate OccursAt(s: string, sub: string, i: int) {
    0 <= i <= |s| - |sub| && s[i..i + |sub|] == sub
  }

  /** Every character of `s` is whitespace; the empty string is blank. */
  predicate IsBlank(s: string, ws: set<char>) {
    forall i :: 0 <= i < |s| ==> s[i] in ws
  }

  lemma ContainsSelf(s: string)
    ensures Contains(s, s)
  {
    assert OccursAt(s, s, 0);
  }

  lemma ContainsInConcat(a: string, b: string, c: string, sub: string)
    requires Contains(b, sub)
    ensures Contains(a + b + c, sub)
  {
    var i :| 0 <= i <= |b| - |sub| && OccursAt(b, sub, i);
    var j := |a| + i;
    assert (a + b + c)[j..j + |sub|] == sub;
    assert OccursAt(a + b + c, sub, j);
  }

  /** Drops the leading whitespace of `s`; what is left is empty or starts
      with a non-space. */
  function TrimLeft(s: string, ws: set<char>): (r: string)
    ensures |r| <= |s|
    ensures r == [] || r[0] !in ws
  {
    if s != [] && s[0] in ws then TrimLeft(s[1..], ws) else s
  }

  /** `TrimLeft` keeps a suffix of `s` and what it cuts off is whitespace. */
  lemma {:induction false} TrimLeftCutsSpace(s: string, ws: set<char>)
    ensures var r := TrimLeft(s, ws);
      r == s[|s| - |r|..] && IsBlank(s[..|s| - |r|], ws)
  {
    if s != [] && s[0] in ws {
      TrimLeftCutsSpace(s[1..], ws);
      var r := TrimLeft(s[1..], ws);
      assert s[..|s| - |r|] == [s[0]] + s[1..][..|s| - 1 - |r|];
    }
  }

  /** Drops the trailing whitespace of `s`; what is left is empty or ends
      with a non-space. */
  function TrimRight(s: string, ws: set<char>): (r: string)
    ensures |r| <= |s|
    ensures r == [] || r[|r| - 1] !in ws
  {
    if s != [] && s[|s| - 1] in ws then TrimRight(s[..|s| - 1], ws) else s
  }

  /** `TrimRight` keeps a prefix of `s` and what it cuts off is whitespace. */
  lemma {:induction false} TrimRightCutsSpace(s: string, ws: set<char>)
    ensures var r := TrimRight(s, ws);
      r == s[..|r|] && IsBlank(s[|r|..], ws)
  {
    if s != [] && s[|s| - 1] in ws {
      TrimRightCutsSpace(s[..|s| - 1], ws);
      var r := TrimRight(s[..|s| - 1], ws);
      assert s[|r|..] == s[..|s| - 1][|r|..] + [s[|s| - 1]];
    }
  }

  /** Go's `strings.TrimSpace`: `s` without its leading and trailing
      whitespace, so what is left neither starts nor ends with whitespace. */
  function TrimSpace(s: string, ws: set<char>): (r: string)
    ensures |r| <= |s|
    ensures r == [] || (r[0] !in ws && r[|r| - 1] !in ws)
  {
    var left := TrimLeft(s, ws);
    TrimRightCutsSpace(left, ws);
    TrimRight(left, ws)
  }

  /** Trimming leaves nothing exactly when the string is whitespace only. */
  lemma TrimSpaceEmptyIffBlank(s: string, ws: set<char>)
    ensures TrimSpace(s, ws) == [] <==> IsBlank(s, ws)
  {
    var left := TrimLeft(s, ws);
    var k := |s| - |left|;
    TrimLeftCutsSpace(s, ws);
    if TrimSpace(s, ws) == [] {
      TrimRightCutsSpace(left, ws);
      assert left == [];
      assert s == s[..k];
    }
  }

  /** Go's `strings.Join`: the parts in order with `sep` between neighbours. */
  function Join(parts: seq<string>, sep: string): string {
    if |parts| == 0 then ""
    else if |parts| == 1 then parts[0]
    else parts[0] + sep + Join(parts[1..], sep)
  }

  /** Every part can be found again in the joined string. */
  lemma {:induction false} JoinContainsEach(parts: seq<string>, sep: string, k: nat)
    requires k < |parts|
    ensures Contains(Join(parts, sep), parts[k])
  {
    if |parts| == 1 {
      ContainsSelf(parts[0]);
    } else if k == 0 {
      ContainsSelf(parts[0]);
      ContainsInConcat("", parts[0], sep + Join(parts[1..], sep), parts[0]);
      assert "" + parts[0] + (sep + Join(parts[1..], sep)) == Join(parts, sep);
    } else {
      JoinContainsEach(parts[1..], sep, k - 1);
      ContainsInConcat(parts[0] + sep, Join(parts[1..], sep), "", parts[k]);
      assert parts[0] + sep + Join(parts[1..], sep) + "" == Join(parts, sep);
    }
  }
}
