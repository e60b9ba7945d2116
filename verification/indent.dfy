/**
 * `fix_descr_intent`: removes the common leading-space indentation of a
 * Franca IDL comment. Two variants exist, differing only in which lines take
 * part in computing the common indentation:
 *   - `Current` (fidl2adoc.py): lines with at least one leading space that are
 *     not whitespace-only;
 *   - `Legacy` (parse_fidl.py): every line with at least one leading space.
 * Either way, every line that starts with that many spaces loses them and
 * every other line is left as it is.
 */
module Indent {
  import opened Text

  datatype Variant = Current | Legacy

  /** Number of `' '` characters a line starts with (a tab stops the count). */
  function LeadingSpaces(line: string): (n: nat)
    ensures n <= |line|
    ensures forall i :: 0 <= i < n ==> line[i] == ' '
    ensures n < |line| ==> line[n] != ' '
  {
    if |line| > 0 && line[0] == ' ' then 1 + LeadingSpaces(line[1..]) else 0
  }

  /** Whether a line takes part in computing the common indentation. */
  predicate Counted(v: Variant, line: string) {
    match v
    case Current => LeadingSpaces(line) > 0 && !IsSpaceOnly(line)
    case Legacy => LeadingSpaces(line) > 0
  }

  function Min(a: int, b: int): int {
    if a <= b then a else b
  }

  /** The scan over the lines with the running minimum `acc`; `-1` stands for
      "no counted line seen yet", as in the source. */
  function MinScan(v: Variant, lines: seq<string>, acc: int): int
    decreases |lines|
  {
    if |lines| == 0 then acc
    else
      var n := LeadingSpaces(lines[0]);
      var acc' := if Counted(v, lines[0]) then Min(if acc < 0 then n else acc, n) else acc;
      MinScan(v, lines[1..], acc')
  }

  /** The indentation that gets stripped: the scan's minimum, clamped to 0. */
  function CommonIndent(v: Variant, lines: seq<string>): nat {
    var m := MinScan(v, lines, -1);
    if m < 0 then 0 else m
  }

  /** The declarative meaning of the common indentation `m`: the smallest
      leading-space count among counted lines, or 0 when no line is counted. */
  ghost predicate IsCommonIndent(v: Variant, lines: seq<string>, m: nat) {
    if exists i :: 0 <= i < |lines| && Counted(v, lines[i]) then
      && (exists i :: 0 <= i < |lines| && Counted(v, lines[i]) && LeadingSpaces(lines[i]) == m)
      && (forall i :: 0 <= i < |lines| && Counted(v, lines[i]) ==> m <= LeadingSpaces(lines[i]))
    else
      m == 0
  }

  lemma {:induction false} MinScanSpec(v: Variant, lines: seq<string>, acc: int)
    requires acc == -1 || acc > 0
    ensures var r := MinScan(v, lines, acc);
      && (r == -1 || r > 0)
      && (acc > 0 ==> r <= acc)
      && (forall i :: 0 <= i < |lines| && Counted(v, lines[i]) ==> 0 < r <= LeadingSpaces(lines[i]))
      && (r == acc || exists i :: 0 <= i < |lines| && Counted(v, lines[i]) && LeadingSpaces(lines[i]) == r)
    decreases |lines|
  {
    if |lines| > 0 {
      var n := LeadingSpaces(lines[0]);
      var acc' := if Counted(v, lines[0]) then Min(if acc < 0 then n else acc, n) else acc;
      MinScanSpec(v, lines[1..], acc');
      var r := MinScan(v, lines, acc);
      assert r == MinScan(v, lines[1..], acc');
      forall i | 0 <= i < |lines| && Counted(v, lines[i])
        ensures 0 < r <= LeadingSpaces(lines[i])
      {
        if i > 0 {
          assert lines[i] == lines[1..][i - 1];
        }
      }
      if r != acc && r != acc' {
        var j :| 0 <= j < |lines[1..]| && Counted(v, lines[1..][j]) && LeadingSpaces(lines[1..][j]) == r;
        assert lines[j + 1] == lines[1..][j];
      }
    }
  }

  /** The scan computes exactly the declarative common indentation. */
  lemma CommonIndentIsMinimum(v: Variant, lines: seq<string>)
    ensures IsCommonIndent(v, lines, CommonIndent(v, lines))
  {
    MinScanSpec(v, lines, -1);
  }

  /** Python's `line[m:] if line.startswith(' ' * m) else line`, per line. */
  function Dedent(lines: seq<string>, m: nat): (r: seq<string>)
    ensures |r| == |lines|
    ensures forall i :: 0 <= i < |lines| ==>
      if LeadingSpaces(lines[i]) >= m then Spaces(m) + r[i] == lines[i] else r[i] == lines[i]
  {
    seq(|lines|, i requires 0 <= i < |lines| =>
      if StartsWith(lines[i], Spaces(m)) then lines[i][m..] else lines[i])
  }

  /** A line starts with `m` spaces exactly when its leading-space count is at least `m`. */
  lemma StartsWithSpaces(line: string, m: nat)
    ensures StartsWith(line, Spaces(m)) <==> LeadingSpaces(line) >= m
  {
    if LeadingSpaces(line) < m <= |line| {
      assert line[..m][LeadingSpaces(line)] != ' ';
    }
  }

  /** The line-level effect of `fix_descr_intent`: the line count is kept;
      every line whose indentation reaches the common indentation `m` loses
      exactly `m` leading spaces; every other line is unchanged. */
  function FixLines(v: Variant, lines: seq<string>): (r: seq<string>)
    ensures |r| == |lines|
    ensures forall i :: 0 <= i < |lines| ==>
      var m := CommonIndent(v, lines);
      if LeadingSpaces(lines[i]) >= m
      then Spaces(m) + r[i] == lines[i] && LeadingSpaces(r[i]) == LeadingSpaces(lines[i]) - m
      else r[i] == lines[i]
  {
    var m := CommonIndent(v, lines);
    forall i | 0 <= i < |lines| {
      StartsWithSpaces(lines[i], m);
    }
    var r := Dedent(lines, m);
    forall i | 0 <= i < |lines| && LeadingSpaces(lines[i]) >= m
      ensures LeadingSpaces(r[i]) == LeadingSpaces(lines[i]) - m
    {
      DropSpaces(lines[i], m, r[i]);
    }
    r
  }

  lemma DropSpaces(line: string, m: nat, rest: string)
    requires Spaces(m) + rest == line
    ensures LeadingSpaces(rest) == LeadingSpaces(line) - m
  {
    assert forall i :: 0 <= i < |rest| ==> rest[i] == line[m + i];
  }

  function LinesOf(text: string): seq<string> {
    Split(text, '\n')
  }

  function Unlines(lines: seq<string>): string {
    Join(lines, '\n')
  }

  lemma {:induction false} FixLinesHaveNoBreak(v: Variant, lines: seq<string>)
    requires forall i :: 0 <= i < |lines| ==> '\n' !in lines[i]
    ensures var r := FixLines(v, lines);
      forall i :: 0 <= i < |r| ==> '\n' !in r[i]
  {
    var r := FixLines(v, lines);
    var m := CommonIndent(v, lines);
    forall i | 0 <= i < |r|
      ensures '\n' !in r[i]
    {
      if LeadingSpaces(lines[i]) >= m {
        SuffixHasNoBreak(lines[i], m, r[i]);
      }
    }
  }

  lemma SuffixHasNoBreak(line: string, m: nat, rest: string)
    requires Spaces(m) + rest == line && '\n' !in line
    ensures '\n' !in rest
  {
    assert forall k :: 0 <= k < |rest| ==> rest[k] == line[m + k];
  }

  /** Shared body of both `fix_descr_intent`s: split into lines, strip the
      common indentation, rejoin. Splitting the result gives back exactly
      the fixed lines, so the line structure is kept. */
  function FixIndent(v: Variant, description: string): (r: string)
    ensures LinesOf(r) == FixLines(v, LinesOf(description))
  {
    var fixed := FixLines(v, LinesOf(description));
    FixLinesHaveNoBreak(v, LinesOf(description));
    SplitJoin(fixed, '\n');
    Unlines(fixed)
  }

  /** `fix_descr_intent` of fidl2adoc.py. */
  function FixDescrIntent(description: string): (r: string)
    ensures |LinesOf(r)| == |LinesOf(description)|
    ensures LinesOf(r) == FixLines(Current, LinesOf(description))
  {
    FixIndent(Current, description)
  }

  /** `fix_descr_intent` of parse_fidl.py. */
  function LegacyFixDescrIntent(description: string): (r: string)
    ensures |LinesOf(r)| == |LinesOf(description)|
    ensures LinesOf(r) == FixLines(Legacy, LinesOf(description))
  {
    FixIndent(Legacy, description)
  }

  /** When no line begins with a space, the common indentation is 0 and the
      text comes back unchanged. */
  lemma UnindentedUnchanged(v: Variant, description: string)
    requires forall i :: 0 <= i < |LinesOf(description)| ==> LeadingSpaces(LinesOf(description)[i]) == 0
    ensures CommonIndent(v, LinesOf(description)) == 0
    ensures FixIndent(v, description) == description
  {
    var lines := LinesOf(description);
    CommonIndentIsMinimum(v, lines);
    var r := FixLines(v, lines);
    assert forall i :: 0 <= i < |lines| ==> r[i] == lines[i];
    assert r == lines;
    JoinSplit(description, '\n');
  }

  /** After the fix, at least one counted line (one with the smallest
      indentation) starts flush left. */
  lemma SomeLineFlushLeft(v: Variant, lines: seq<string>)
    requires exists i :: 0 <= i < |lines| && Counted(v, lines[i])
    ensures exists i :: 0 <= i < |lines| && Counted(v, lines[i]) && LeadingSpaces(FixLines(v, lines)[i]) == 0
  {
    CommonIndentIsMinimum(v, lines);
  }

  /** Legacy variant: a whitespace-only line with `k` leading spaces caps the
      stripped indentation at `k`. */
  lemma LegacyBlankLineCaps(lines: seq<string>, i: nat)
    requires i < |lines| && IsSpaceOnly(lines[i]) && LeadingSpaces(lines[i]) > 0
    ensures CommonIndent(Legacy, lines) <= LeadingSpaces(lines[i])
  {
    CommonIndentIsMinimum(Legacy, lines);
  }

  /** Current variant: whitespace-only lines never limit the stripped
      indentation, whatever their length. */
  lemma CurrentIgnoresBlankLines(lines: seq<string>, i: nat, blank: string)
    requires i <= |lines| && IsSpaceOnly(blank)
    ensures CommonIndent(Current, lines[..i] + [blank] + lines[i..]) == CommonIndent(Current, lines)
  {
    var longer := lines[..i] + [blank] + lines[i..];
    CommonIndentIsMinimum(Current, lines);
    CommonIndentIsMinimum(Current, longer);
    assert forall k :: 0 <= k < i ==> longer[k] == lines[k];
    assert forall k :: i < k < |longer| ==> longer[k] == lines[k - 1];
    assert forall k :: 0 <= k < |lines| ==> lines[k] == longer[if k < i then k else k + 1];
  }

  lemma {:induction false} LeadingSpacesOf(n: nat, rest: string)
    requires rest == "" || rest[0] != ' '
    ensures LeadingSpaces(Spaces(n) + rest) == n
  {
    if n > 0 {
      assert (Spaces(n) + rest)[1..] == Spaces(n - 1) + rest;
      LeadingSpacesOf(n - 1, rest);
    } else {
      assert Spaces(n) + rest == rest;
    }
  }

  /** The common indentation of a two-line text, from the lines' counts. */
  lemma CommonIndentOfTwo(v: Variant, a: string, b: string)
    ensures var lines := [a, b];
      var na := LeadingSpaces(a);
      var nb := LeadingSpaces(b);
      CommonIndent(v, lines) ==
        if Counted(v, a) && Counted(v, b) then Min(na, nb)
        else if Counted(v, a) then na
        else if Counted(v, b) then nb
        else 0
  {
    var lines := [a, b];
    var na := LeadingSpaces(a);
    var nb := LeadingSpaces(b);
    var acc1 := if Counted(v, a) then Min(na, na) else -1;
    var acc2 := if Counted(v, b) then Min(if acc1 < 0 then nb else acc1, nb) else acc1;
    assert lines[1..] == [b];
    assert [b][1..] == [];
    assert MinScan(v, lines, -1) == MinScan(v, [b], acc1);
    assert MinScan(v, [b], acc1) == MinScan(v, [], acc2) == acc2;
  }

  /** The two-line texts the examples below use. */
  lemma LinesOfTwo(a: string, b: string)
    requires '\n' !in a && '\n' !in b
    ensures LinesOf(a + "\n" + b) == [a, b]
  {
    SplitJoin([a, b], '\n');
    assert Join([a, b], '\n') == a + "\n" + b;
  }

  /** Fixing a two-line text fixes each of its two lines. */
  lemma FixTwo(v: Variant, a: string, b: string)
    requires '\n' !in a && '\n' !in b
    ensures var fixed := FixLines(v, [a, b]);
      FixIndent(v, a + "\n" + b) == fixed[0] + "\n" + fixed[1]
  {
    LinesOfTwo(a, b);
    var fixed := FixLines(v, [a, b]);
    assert Join(fixed, '\n') == fixed[0] + "\n" + fixed[1];
  }

  /** Two indented lines keep their relative indentation: the less
      indented one ends flush left and the other keeps the difference. */
  lemma RelativeIndentKept(n: nat, k: nat, x: string, y: string)
    requires n > 0
    requires x != "" && !IsWhitespace(x[0]) && '\n' !in x
    requires y != "" && !IsWhitespace(y[0]) && '\n' !in y
    ensures FixDescrIntent((Spaces(n) + x) + "\n" + (Spaces(n + k) + y)) == x + "\n" + (Spaces(k) + y)
  {
    var a, b := Spaces(n) + x, Spaces(n + k) + y;
    IndentedLine(n, x);
    IndentedLine(n + k, y);
    CommonIndentOfTwo(Current, a, b);
    var r := FixLines(Current, [a, b]);
    assert Spaces(n) + r[0] == Spaces(n) + x;
    assert r[0] == (Spaces(n) + r[0])[n..] == (Spaces(n) + x)[n..] == x;
    assert Spaces(n + k) == Spaces(n) + Spaces(k);
    assert Spaces(n) + r[1] == Spaces(n) + (Spaces(k) + y);
    assert r[1] == (Spaces(n) + r[1])[n..] == (Spaces(n) + (Spaces(k) + y))[n..] == Spaces(k) + y;
    FixTwo(Current, a, b);
  }

  /** A line made of `n > 0` spaces and a text starting with a non-blank
      character: it has `n` leading spaces, counts in both variants, and has
      no line break when the text has none. */
  lemma IndentedLine(n: nat, x: string)
    requires n > 0
    requires x != "" && !IsWhitespace(x[0]) && '\n' !in x
    ensures LeadingSpaces(Spaces(n) + x) == n
    ensures Counted(Current, Spaces(n) + x) && Counted(Legacy, Spaces(n) + x)
    ensures '\n' !in Spaces(n) + x
  {
    var a := Spaces(n) + x;
    LeadingSpacesOf(n, x);
    assert a[n] == x[0];
    assert forall i :: 0 <= i < |a| ==> a[i] == ' ' || a[i] == x[i - n];
  }

  /** `"  a\n    b"` becomes `"a\n  b"`. */
  lemma FirstPassExample()
    ensures FixDescrIntent("  a" + "\n" + "    b") == "a" + "\n" + "  b"
  {
    SpacesAre();
    assert "  a" == Spaces(2) + "a";
    assert "    b" == Spaces(2 + 2) + "b";
    assert "  b" == Spaces(2) + "b";
    RelativeIndentKept(2, 2, "a", "b");
  }

  lemma SpacesAre()
    ensures Spaces(2) == "  " && Spaces(4) == "    "
  {
  }

  /** `"a\n  b"` becomes `"a\nb"`. */
  lemma SecondPassExample()
    ensures FixDescrIntent("a" + "\n" + "  b") == "a" + "\n" + "b"
  {
    var a, b := "a", "  b";
    assert b == Spaces(2) + "b";
    LeadingSpacesOf(2, "b");
    assert b[2] == 'b';
    CommonIndentOfTwo(Current, a, b);
    var r := FixLines(Current, [a, b]);
    assert Spaces(2) + r[1] == Spaces(2) + "b";
    FixTwo(Current, a, b);
  }

  /** On `"  \n    a"` the current variant ignores the blank first line and
      the legacy variant lets it cap the indentation at two. */
  lemma BlankLineExample()
    ensures FixDescrIntent("  " + "\n" + "    a") == "  " + "\n" + "a"
    ensures LegacyFixDescrIntent("  " + "\n" + "    a") == "" + "\n" + "  a"
  {
    BlankLineCurrent();
    BlankLineLegacy();
  }

  lemma BlankLineCurrent()
    ensures FixDescrIntent("  " + "\n" + "    a") == "  " + "\n" + "a"
  {
    var a, b := "  ", "    a";
    assert b == Spaces(4) + "a";
    LeadingSpacesOf(4, "a");
    assert IsWhitespace(a[0]) && IsWhitespace(a[1]) && b[4] == 'a';
    assert !Counted(Current, a);
    CommonIndentOfTwo(Current, a, b);
    var c := FixLines(Current, [a, b]);
    assert Spaces(4) + c[1] == Spaces(4) + "a";
    FixTwo(Current, a, b);
  }

  lemma BlankLineLegacy()
    ensures LegacyFixDescrIntent("  " + "\n" + "    a") == "" + "\n" + "  a"
  {
    var a, b := "  ", "    a";
    assert a == Spaces(2) + "" && b == Spaces(4) + "a";
    LeadingSpacesOf(2, "");
    LeadingSpacesOf(4, "a");
    CommonIndentOfTwo(Legacy, a, b);
    var l := FixLines(Legacy, [a, b]);
    assert Spaces(2) + l[0] == Spaces(2) + "";
    assert Spaces(2) + l[1] == Spaces(2) + "  a";
    FixTwo(Legacy, a, b);
  }

  /** `fix_descr_intent` is not idempotent: a second application strips the
      indentation the first one left on deeper lines. */
  lemma NotIdempotent()
    ensures FixDescrIntent("  a" + "\n" + "    b") == "a" + "\n" + "  b"
    ensures FixDescrIntent("a" + "\n" + "  b") == "a" + "\n" + "b"
    ensures FixDescrIntent(FixDescrIntent("  a" + "\n" + "    b")) != FixDescrIntent("  a" + "\n" + "    b")
  {
    FirstPassExample();
    SecondPassExample();
    assert ("a" + "\n" + "b")[2] != ("a" + "\n" + "  b")[2];
  }

  /** The two variants differ only in whether whitespace-only lines count:
      without an indented whitespace-only line they fix every text alike. */
  lemma VariantsAgree(lines: seq<string>)
    requires forall i :: 0 <= i < |lines| && LeadingSpaces(lines[i]) > 0 ==> !IsSpaceOnly(lines[i])
    ensures FixLines(Current, lines) == FixLines(Legacy, lines)
  {
    MinScanAgree(lines, -1);
    var c, l := FixLines(Current, lines), FixLines(Legacy, lines);
    var m := CommonIndent(Current, lines);
    forall i | 0 <= i < |lines|
      ensures c[i] == l[i]
    {
      if LeadingSpaces(lines[i]) >= m {
        assert Spaces(m) + c[i] == Spaces(m) + l[i];
        assert c[i] == (Spaces(m) + c[i])[m..];
        assert l[i] == (Spaces(m) + l[i])[m..];
      }
    }
  }

  lemma {:induction false} MinScanAgree(lines: seq<string>, acc: int)
    requires forall i :: 0 <= i < |lines| && LeadingSpaces(lines[i]) > 0 ==> !IsSpaceOnly(lines[i])
    ensures MinScan(Current, lines, acc) == MinScan(Legacy, lines, acc)
    decreases |lines|
  {
    if |lines| > 0 {
      assert Counted(Current, lines[0]) == Counted(Legacy, lines[0]);
      var n := LeadingSpaces(lines[0]);
      var acc' := if Counted(Legacy, lines[0]) then Min(if acc < 0 then n else acc, n) else acc;
      assert forall i :: 0 <= i < |lines[1..]| ==> lines[1..][i] == lines[i + 1];
      MinScanAgree(lines[1..], acc');
    }
  }

  /** On the text `"  \n    a"`, whose only whitespace-only line is
      indented, the variants disagree. */
  lemma VariantsDisagreeOnBlankLine()
    ensures FixDescrIntent("  " + "\n" + "    a") != LegacyFixDescrIntent("  " + "\n" + "    a")
  {
    BlankLineExample();
    assert ("  " + "\n" + "a")[0] != ("" + "\n" + "  a")[0];
  }
}
