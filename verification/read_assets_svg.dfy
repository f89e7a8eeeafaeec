/**
 * The whitespace normalisation applied to an SVG file's text when it is read
 * from the assets directory: `svgFile.replace(/\s+/g, " ")`. The file read
 * itself is not modelled; the file's contents are the input.
 */
module ReadAssetsSvg {
  import opened JsString

  /** No two whitespace characters stand next to each other. */
  predicate NoAdjacentWs(s: string) {
    forall i :: 0 <= i < |s| - 1 ==> !(IsWs(s[i]) && IsWs(s[i + 1]))
  }

  /** The only whitespace character present is the plain space. */
  predicate OnlySpaces(s: string) {
    forall i :: 0 <= i < |s| ==> IsWs(s[i]) ==> s[i] == ' '
  }

  /** A string the replacement leaves as it is. */
  predicate Collapsed(s: string) {
    NoAdjacentWs(s) && OnlySpaces(s)
  }

  /** The non-whitespace characters of `s`, in order. */
  function NonWs(s: string): (r: string)
    ensures NoWs(r)
    ensures |r| <= |s|
    decreases |s|
  {
    if s == [] then []
    else if IsWs(s[0]) then NonWs(s[1..])
    else [s[0]] + NonWs(s[1..])
  }

  /**
   * `s.replace(/\s+/g, " ")`: the global, greedy match of `\s+` scans left to
   * right, and each maximal whitespace run it meets becomes one space. The
   * result is empty exactly when the input is, and it starts with whitespace
   * exactly when the input does.
   */
  function Collapse(s: string): (r: string)
    ensures |r| <= |s|
    ensures r == [] <==> s == []
    ensures s != [] ==> (IsWs(r[0]) <==> IsWs(s[0]))
    decreases |s|
  {
    if s == [] then []
    else if IsWs(s[0]) then [' '] + Collapse(TrimStart(s))
    else [s[0]] + Collapse(s[1..])
  }

  /** The result never holds two whitespace characters in a row, and its only whitespace is the space. */
  lemma {:induction false} CollapseCollapsed(s: string)
    ensures Collapsed(Collapse(s))
    decreases |s|
  {
    if s != [] {
      var r := Collapse(s);
      var rest := if IsWs(s[0]) then TrimStart(s) else s[1..];
      CollapseCollapsed(rest);
      assert r[1..] == Collapse(rest);
      assert forall i :: 1 <= i < |r| ==> r[i] == Collapse(rest)[i - 1];
    }
  }

  /** Dropping a whitespace-only prefix does not change the non-whitespace characters. */
  lemma {:induction false} NonWsDropWs(s: string, n: nat)
    requires n <= |s|
    requires forall m :: 0 <= m < n ==> IsWs(s[m])
    ensures NonWs(s[n..]) == NonWs(s)
    decreases n
  {
    if n > 0 {
      assert s[1..][n - 1..] == s[n..];
      NonWsDropWs(s[1..], n - 1);
    }
  }

  /** The replacement keeps every non-whitespace character, in order, and adds none. */
  lemma {:induction false} CollapseKeepsNonWs(s: string)
    ensures NonWs(Collapse(s)) == NonWs(s)
    decreases |s|
  {
    if s != [] {
      var r := Collapse(s);
      if IsWs(s[0]) {
        NonWsDropWs(s, LeadingWs(s));
        CollapseKeepsNonWs(TrimStart(s));
        assert r[1..] == Collapse(TrimStart(s));
      } else {
        CollapseKeepsNonWs(s[1..]);
        assert r[1..] == Collapse(s[1..]);
      }
    }
  }

  /** Text without whitespace is returned unchanged. */
  lemma {:induction false} CollapseNoWs(s: string)
    requires NoWs(s)
    ensures Collapse(s) == s
    decreases |s|
  {
    if s != [] {
      CollapseNoWs(s[1..]);
    }
  }

  /** The strings the replacement leaves unchanged are exactly the collapsed ones. */
  lemma {:induction false} CollapseFixpoint(s: string)
    ensures Collapse(s) == s <==> Collapsed(s)
    decreases |s|
  {
    CollapseCollapsed(s);
    if s != [] && Collapsed(s) {
      assert Collapsed(s[1..]);
      CollapseFixpoint(s[1..]);
      if IsWs(s[0]) {
        assert |s| == 1 || !IsWs(s[1]);
        assert LeadingWs(s) == 1;
      }
    }
  }

  /** Replacing twice gives the same text as replacing once. */
  lemma CollapseIdempotent(s: string)
    ensures Collapse(Collapse(s)) == Collapse(s)
  {
    CollapseCollapsed(s);
    CollapseFixpoint(Collapse(s));
  }

  /** One match of `\s+`: the run `s[i..j]` becomes a single space. */
  lemma CollapseRunStep(s: string, i: nat, j: nat)
    requires i < j <= |s|
    requires forall m :: i <= m < j ==> IsWs(s[m])
    requires j == |s| || !IsWs(s[j])
    ensures Collapse(s[i..]) == [' '] + Collapse(s[j..])
  {
    var rest := s[i..];
    assert forall m :: 0 <= m < j - i ==> rest[m] == s[i + m];
    assert j - i == |rest| || rest[j - i] == s[j];
    assert LeadingWs(rest) == j - i;
    assert rest[j - i..] == s[j..];
  }

  /** A non-whitespace character is copied as it is. */
  lemma CollapseCharStep(s: string, i: nat)
    requires i < |s| && !IsWs(s[i])
    ensures Collapse(s[i..]) == [s[i]] + Collapse(s[i + 1..])
  {
    assert s[i..][1..] == s[i + 1..];
  }

  /**
   * Regrouping a concatenation. Dafny knows this fact, but stating it at each
   * step of the scan below keeps that proof within the resource limit.
   */
  lemma AppendAssoc(a: string, b: string, c: string)
    ensures (a + b) + c == a + (b + c)
  {
  }

  /** The end of the greedy `\s+` match that starts at `i`. */
  method EndOfRun(s: string, i: nat) returns (j: nat)
    requires i < |s| && IsWs(s[i])
    ensures i < j <= |s|
    ensures forall m :: i <= m < j ==> IsWs(s[m])
    ensures j == |s| || !IsWs(s[j])
  {
    j := i + 1;
    while j < |s| && IsWs(s[j])
      invariant i < j <= |s|
      invariant forall m :: i <= m < j ==> IsWs(s[m])
    {
      j := j + 1;
    }
  }

  /**
   * `readAssetsSvgFile` applied to the file's contents, written as the
   * left-to-right scan the regular-expression replacement performs.
   */
  method ReadAssetsSvgFile(svgFile: string) returns (r: string)
    ensures r == Collapse(svgFile)
    ensures |r| <= |svgFile| && Collapsed(r)
  {
    r := [];
    var i := 0;
    while i < |svgFile|
      invariant 0 <= i <= |svgFile|
      invariant r + Collapse(svgFile[i..]) == Collapse(svgFile)
    {
      if IsWs(svgFile[i]) {
        var j := EndOfRun(svgFile, i);
        CollapseRunStep(svgFile, i, j);
        AppendAssoc(r, [' '], Collapse(svgFile[j..]));
        r := r + [' '];
        i := j;
      } else {
        CollapseCharStep(svgFile, i);
        AppendAssoc(r, [svgFile[i]], Collapse(svgFile[i + 1..]));
        r := r + [svgFile[i]];
        i := i + 1;
      }
    }
    assert svgFile[i..] == [];
    CollapseCollapsed(svgFile);
  }
}
