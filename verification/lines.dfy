/** Line structure of text: Python's `str.splitlines()` and `"\n".join(...)`.

The changelog is read with `read_text().splitlines()` and written back with
`"\n".join(lines) + "\n"`; the commit log is split the same way. The round trip
between the two is what lets the changelog writer and its readers be reasoned about
line by line.
 */
module Lines {
  import opened Text

  /** The characters at which `str.splitlines()` ends a line ("\r\n" counts once). */
  predicate IsLineBreak(c: char) {
    || c == '\n' || c == '\r' || c == '\U{0B}' || c == '\U{0C}'
    || c == '\U{1C}' || c == '\U{1D}' || c == '\U{1E}'
    || c == '\U{85}' || c == '\U{2028}' || c == '\U{2029}'
  }

  predicate NoBreaks(s: string) {
    forall k :: 0 <= k < |s| ==> !IsLineBreak(s[k])
  }

  /** Index of the first line break in `s`, or `|s|` when there is none. */
  function BreakIndex(s: string): (k: nat)
    ensures k <= |s|
    ensures NoBreaks(s[..k])
    ensures k < |s| ==> IsLineBreak(s[k])
  {
    if s == [] || IsLineBreak(s[0]) then 0 else 1 + BreakIndex(s[1..])
  }

  /** `s.splitlines()`: the pieces between line breaks, a final break ending the last line. */
  function SplitLines(s: string): (r: seq<string>)
    ensures forall k :: 0 <= k < |r| ==> NoBreaks(r[k])
    ensures s == [] <==> r == []
    decreases |s|
  {
    if s == [] then []
    else
      var k := BreakIndex(s);
      if k == |s| then [s]
      else
        var next := if s[k] == '\r' && k + 1 < |s| && s[k + 1] == '\n' then k + 2 else k + 1;
        [s[..k]] + SplitLines(s[next..])
  }

  /** `"\n".join(lines)` */
  function JoinLines(lines: seq<string>): (r: string)
    ensures |lines| == 1 ==> r == lines[0]
  {
    if lines == [] then ""
    else if |lines| == 1 then lines[0]
    else lines[0] + "\n" + JoinLines(lines[1..])
  }

  /** The text the changelog writer produces: `"\n".join(lines) + "\n"`. */
  function Render(lines: seq<string>): string {
    JoinLines(lines) + "\n"
  }

  lemma BreakIndexAfterLine(l: string, rest: string)
    requires NoBreaks(l)
    ensures BreakIndex(l + rest) == |l| + BreakIndex(rest)
    decreases |l|
  {
    if l == [] {
      assert l + rest == rest;
    } else {
      assert (l + rest)[0] == l[0];
      assert (l + rest)[1..] == l[1..] + rest;
      BreakIndexAfterLine(l[1..], rest);
    }
  }

  /** Splitting a line that ends in "\n" yields the line, then the split of the rest. */
  lemma SplitLinesCons(l: string, rest: string)
    requires NoBreaks(l)
    ensures SplitLines(l + "\n" + rest) == [l] + SplitLines(rest)
  {
    var s := l + "\n" + rest;
    assert s == l + ("\n" + rest);
    assert ("\n" + rest)[0] == '\n';
    BreakIndexAfterLine(l, "\n" + rest);
    assert BreakIndex(s) == |l|;
    assert s[..|l|] == l;
    assert s[|l| + 1..] == rest;
  }

  /** Reading back what the writer wrote gives exactly the lines written, as long as
      there is at least one line and none of them contains a line break. */
  lemma {:induction false} SplitRender(lines: seq<string>)
    requires |lines| > 0
    requires forall k :: 0 <= k < |lines| ==> NoBreaks(lines[k])
    ensures SplitLines(Render(lines)) == lines
    decreases |lines|
  {
    if |lines| == 1 {
      SplitLinesCons(lines[0], "");
      assert Render(lines) == lines[0] + "\n" + "";
    } else {
      SplitRender(lines[1..]);
      assert Render(lines) == lines[0] + "\n" + Render(lines[1..]);
      SplitLinesCons(lines[0], Render(lines[1..]));
      assert lines == [lines[0]] + lines[1..];
    }
  }

  lemma JoinLinesAppend(a: seq<string>, b: seq<string>)
    requires |a| > 0 && |b| > 0
    ensures JoinLines(a + b) == JoinLines(a) + "\n" + JoinLines(b)
    decreases |a|
  {
    if |a| == 1 {
      assert (a + b)[1..] == b;
    } else {
      assert (a + b)[1..] == a[1..] + b;
      JoinLinesAppend(a[1..], b);
    }
  }
}
