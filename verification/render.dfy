/**
 * Pass 2: the AsciiDoc lines each handler appends to the document. Each
 * function returns the lines one handler appends, in order; the document
 * is their concatenation.
 */
module Render {
  import opened Wrappers
  import opened Text
  import opened Indent
  import opened Ast
  import opened Names
  import opened References

  // ---------------------------------------------------------------------
  // Comments
  // ---------------------------------------------------------------------

  /** The see-also text: each token, resolved in `ns`, followed by one space. */
  function SeeText(ns: Namespace, tokens: seq<string>): (r: string)
    ensures |tokens| == 0 <==> r == ""
    ensures |tokens| > 0 ==> r[|r| - 1] == ' '
    decreases |tokens|
  {
    if |tokens| == 0 then "" else SeeLink(ns, tokens[0]) + " " + SeeText(ns, tokens[1..])
  }

  /** Appending a token appends its link and one space: every token,
      the last included, is followed by exactly one space. */
  lemma {:induction false} SeeTextAppend(ns: Namespace, tokens: seq<string>, w: string)
    ensures SeeText(ns, tokens + [w]) == SeeText(ns, tokens) + SeeLink(ns, w) + " "
    decreases |tokens|
  {
    if |tokens| == 0 {
      assert [] + [w] == [w];
      assert [w][1..] == [];
    } else {
      var head := SeeLink(ns, tokens[0]) + " ";
      assert (tokens + [w])[0] == tokens[0];
      assert (tokens + [w])[1..] == tokens[1..] + [w];
      assert SeeText(ns, tokens + [w]) == head + SeeText(ns, tokens[1..] + [w]);
      assert SeeText(ns, tokens) == head + SeeText(ns, tokens[1..]);
      SeeTextAppend(ns, tokens[1..], w);
      StringAssoc(head, SeeText(ns, tokens[1..]), SeeLink(ns, w), " ");
    }
  }

  lemma StringAssoc(a: string, b: string, c: string, d: string)
    ensures a + (b + c + d) == a + b + c + d
  {
  }

  /** The see-also line for a `@see` comment, split on whitespace. */
  function SeeAlso(ns: Namespace, comment: string): string {
    "\nSee also: " + SeeText(ns, Words(comment))
  }

  /** Python truthiness of an optional comment: present and non-empty. */
  predicate Given(c: Option<string>) {
    c.Some? && c.value != ""
  }

  /** `adoc_description`: the indentation-fixed description, then the
      see-also line; each only when its comment is present and non-empty. */
  function Description(ns: Namespace, comments: Comments): (r: seq<string>)
    ensures var d := GetComment(comments, DescriptionTag);
      var s := GetComment(comments, SeeTag);
      && |r| == (if Given(d) then 1 else 0) + (if Given(s) then 1 else 0)
      && (Given(d) ==> r[0] == "\n" + FixDescrIntent(d.value))
      && (Given(s) ==> r[|r| - 1] == SeeAlso(ns, s.value))
  {
    var d := GetComment(comments, DescriptionTag);
    var s := GetComment(comments, SeeTag);
    (if Given(d) then ["\n" + FixDescrIntent(d.value)] else [])
      + (if Given(s) then [SeeAlso(ns, s.value)] else [])
  }

  /** Read back, the see-also text holds one word per token: its link when
      the namespace defines it, the token itself otherwise. */
  lemma {:induction false} SeeTextWords(ns: Namespace, tokens: seq<string>)
    requires NoWhitespace(ns.name)
    requires forall i :: 0 <= i < |tokens| ==> |tokens[i]| > 0 && NoWhitespace(tokens[i])
    ensures Words(SeeText(ns, tokens)) == seq(|tokens|, i requires 0 <= i < |tokens| => SeeLink(ns, tokens[i]))
    decreases |tokens|
  {
    if |tokens| == 0 {
      assert Words("") == [];
    } else {
      var w := SeeLink(ns, tokens[0]);
      var rest := SeeText(ns, tokens[1..]);
      SeeLinkIsWord(ns, tokens[0]);
      assert SeeText(ns, tokens) == w + [' '] + rest;
      WordsSplitAt(w, ' ', rest);
      OneWord(w);
      assert forall i :: 0 <= i < |tokens[1..]| ==> tokens[1..][i] == tokens[i + 1];
      SeeTextWords(ns, tokens[1..]);
      SeeLinksCons(ns, tokens);
    }
  }

  lemma SeeLinkIsWord(ns: Namespace, token: string)
    requires NoWhitespace(ns.name) && |token| > 0 && NoWhitespace(token)
    ensures |SeeLink(ns, token)| > 0 && NoWhitespace(SeeLink(ns, token))
  {
    if Defines(ns, token) {
      LinkHasNoWhitespace(ns.name, token);
    }
  }

  lemma SeeLinksCons(ns: Namespace, tokens: seq<string>)
    requires |tokens| > 0
    ensures seq(|tokens|, i requires 0 <= i < |tokens| => SeeLink(ns, tokens[i]))
      == [SeeLink(ns, tokens[0])] + seq(|tokens[1..]|, i requires 0 <= i < |tokens[1..]| => SeeLink(ns, tokens[1..][i]))
  {
  }

  lemma LinkHasNoWhitespace(ns: string, name: string)
    requires NoWhitespace(ns) && NoWhitespace(name)
    ensures NoWhitespace(Link(ns, name))
  {
    assert NoWhitespace("<<") && NoWhitespace("-") && NoWhitespace(">>");
    NoWhitespaceConcat("<<", ns);
    NoWhitespaceConcat("<<" + ns, "-");
    NoWhitespaceConcat("<<" + ns + "-", name);
    NoWhitespaceConcat("<<" + ns + "-" + name, ">>");
    assert Link(ns, name) == "<<" + ns + "-" + name + ">>";
  }

  /** A `@see` comment none of whose tokens the namespace defines reads
      back word for word: unresolved tokens are emitted verbatim. */
  lemma UnresolvedSeeIsVerbatim(ns: Namespace, comment: string)
    requires NoWhitespace(ns.name)
    requires forall i :: 0 <= i < |Words(comment)| ==> !Defines(ns, Words(comment)[i])
    ensures Words(SeeAlso(ns, comment)[|"\nSee also: "|..]) == Words(comment)
  {
    var toks := Words(comment);
    SeeTextWords(ns, toks);
    assert SeeAlso(ns, comment)[|"\nSee also: "|..] == SeeText(ns, toks);
  }

  // ---------------------------------------------------------------------
  // Tables
  // ---------------------------------------------------------------------

  const TableOptions := "[options=\"header\",cols=\"20%,20%,60%\"]"
  const TableDelimiter := "|==="
  const ArgColumns := ["Type", "Name", "Description"]
  const InputTitle := "Input Parameters:"
  const OutputTitle := "Output Parameters:"
  const EnumeratorColumns := ["Enumerator", "Values", "Description"]

  /** The header row: the column titles, each after a `|`. */
  function HeaderRow(columns: seq<string>): string {
    "|" + Join(columns, '|')
  }

  /** `adoc_table`: nothing at all for no entries; otherwise title, options,
      opening delimiter, header row, the rows, closing delimiter. */
  function Table<T>(title: string, columns: seq<string>, entries: seq<T>, rows: seq<string>): (r: seq<string>)
    ensures |entries| == 0 ==> r == []
    ensures |entries| > 0 ==>
      && |r| == |rows| + 5
      && r[..4] == ["\n" + title + "\n", TableOptions, TableDelimiter, HeaderRow(columns)]
      && r[4..|r| - 1] == rows
      && r[|r| - 1] == TableDelimiter + "\n"
  {
    if |entries| == 0 then []
    else ["\n" + title + "\n", TableOptions, TableDelimiter, "|" + Join(columns, '|')] + rows + [TableDelimiter + "\n"]
  }

  /** The header row reads back as the column titles. */
  lemma HeaderRowColumns(columns: seq<string>)
    requires |columns| >= 1
    requires forall i :: 0 <= i < |columns| ==> '|' !in columns[i]
    ensures Split(HeaderRow(columns)[1..], '|') == columns
  {
    SplitJoin(columns, '|');
  }

  /** The cell line of an argument in `process_method_args` and
      `process_broadcast_args`: spaced bars. */
  function ArgCell(arg: TypedElement): string {
    "| " + TypeName(arg.typ) + " | " + arg.name + " | "
  }

  /** The cell line of a field in `process_struct_field`: bare bars. */
  function FieldCell(field: TypedElement): string {
    "|" + TypeName(field.typ) + "|" + field.name + "|"
  }

  /** Rows of `process_method_args` / `process_broadcast_args`: per
      argument, its cell line followed by its description lines. */
  function ArgRows(ns: Namespace, args: seq<TypedElement>): (r: seq<string>)
    ensures |r| >= |args|
    decreases |args|
  {
    if |args| == 0 then []
    else [ArgCell(args[0])] + Description(ns, args[0].comments) + ArgRows(ns, args[1..])
  }

  /** Rows of `process_struct_field`, laid out like `ArgRows`. */
  function FieldRows(ns: Namespace, fields: seq<TypedElement>): (r: seq<string>)
    ensures |r| >= |fields|
    decreases |fields|
  {
    if |fields| == 0 then []
    else [FieldCell(fields[0])] + Description(ns, fields[0].comments) + FieldRows(ns, fields[1..])
  }

  /** One argument's rows: its cell line, then its description lines. */
  lemma ArgRowsOne(ns: Namespace, arg: TypedElement)
    ensures ArgRows(ns, [arg]) == [ArgCell(arg)] + Description(ns, arg.comments)
  {
    assert [arg][1..] == [];
  }

  /** The loop handles the arguments one after another: the rows of two
      runs of arguments are the rows of the first, then of the second. */
  lemma {:induction false} ArgRowsAppend(ns: Namespace, a: seq<TypedElement>, b: seq<TypedElement>)
    ensures ArgRows(ns, a + b) == ArgRows(ns, a) + ArgRows(ns, b)
    decreases |a|
  {
    if |a| == 0 {
      assert a + b == b;
    } else {
      assert (a + b)[0] == a[0];
      assert (a + b)[1..] == a[1..] + b;
      ArgRowsAppend(ns, a[1..], b);
    }
  }

  lemma FieldRowsOne(ns: Namespace, field: TypedElement)
    ensures FieldRows(ns, [field]) == [FieldCell(field)] + Description(ns, field.comments)
  {
    assert [field][1..] == [];
  }

  lemma {:induction false} FieldRowsAppend(ns: Namespace, a: seq<TypedElement>, b: seq<TypedElement>)
    ensures FieldRows(ns, a + b) == FieldRows(ns, a) + FieldRows(ns, b)
    decreases |a|
  {
    if |a| == 0 {
      assert a + b == b;
    } else {
      assert (a + b)[0] == a[0];
      assert (a + b)[1..] == a[1..] + b;
      FieldRowsAppend(ns, a[1..], b);
    }
  }

  // ---------------------------------------------------------------------
  // Enumerators
  // ---------------------------------------------------------------------

  /** The values `process_enumerators` prints, with the running counter
      starting at `counter`: an explicit value replaces the counter, and the
      counter is one more than the previous row's value. */
  function Numbering(es: seq<Enumerator>, counter: int): (vals: seq<int>)
    ensures |vals| == |es|
    ensures |es| > 0 ==> vals[0] == es[0].value.GetOr(counter)
    decreases |es|
  {
    if |es| == 0 then []
    else
      var v := if es[0].value.Some? then es[0].value.value else counter;
      [v] + Numbering(es[1..], v + 1)
  }

  /** Each later enumerator gets its explicit value or one more than its
      predecessor's. */
  lemma {:induction false} NumberingNext(es: seq<Enumerator>, counter: int, i: nat)
    requires 0 < i < |es|
    ensures Numbering(es, counter)[i] == es[i].value.GetOr(Numbering(es, counter)[i - 1] + 1)
    decreases i
  {
    var v := es[0].value.GetOr(counter);
    assert Numbering(es, counter) == [v] + Numbering(es[1..], v + 1);
    if i > 1 {
      NumberingNext(es[1..], v + 1, i - 1);
    }
  }

  /** An implicitly numbered run counts up from the run's start: with no
      explicit value up to `i`, enumerator `i` gets `counter + i`. */
  lemma {:induction false} NumberingImplicit(es: seq<Enumerator>, counter: int, i: nat)
    requires i < |es|
    requires forall k :: 0 <= k <= i ==> es[k].value.None?
    ensures Numbering(es, counter)[i] == counter + i
  {
    if i > 0 {
      NumberingImplicit(es, counter, i - 1);
      NumberingNext(es, counter, i);
    }
  }

  /** After an explicit value `v` at `j`, the following enumerators without
      one count up from `v`. */
  lemma {:induction false} NumberingAfterExplicit(es: seq<Enumerator>, counter: int, j: nat, i: nat)
    requires j <= i < |es|
    requires es[j].value.Some?
    requires forall k :: j < k <= i ==> es[k].value.None?
    ensures Numbering(es, counter)[i] == es[j].value.value + (i - j)
  {
    var vals := Numbering(es, counter);
    if i > j {
      NumberingAfterExplicit(es, counter, j, i - 1);
      NumberingNext(es, counter, i);
    } else if j > 0 {
      NumberingNext(es, counter, j);
    }
  }

  /** One step of the counter loops: with the counter one past the previous
      value (0 at the start), enumerator `i` gets its numbering. */
  lemma NumberingStep(es: seq<Enumerator>, start: int, i: nat, counter: int)
    requires i < |es|
    requires i == 0 ==> counter == start
    requires i > 0 ==> counter == Numbering(es, start)[i - 1] + 1
    ensures es[i].value.GetOr(counter) == Numbering(es, start)[i]
  {
    if i > 0 {
      NumberingNext(es, start, i);
    }
  }

  /** The counter loop of `process_enumerators`. */
  method EnumeratorValues(es: seq<Enumerator>) returns (vals: seq<int>)
    ensures |vals| == |es|
    ensures vals == Numbering(es, 0)
  {
    var value := 0;
    vals := [];
    var i := 0;
    while i < |es|
      invariant 0 <= i <= |es| && |vals| == i
      invariant vals == Numbering(es, 0)[..i]
      invariant i > 0 ==> value == Numbering(es, 0)[i - 1] + 1
      invariant i == 0 ==> value == 0
    {
      NumberingStep(es, 0, i, value);
      if es[i].value.Some? {
        value := es[i].value.value;
      }
      vals := vals + [value];
      value := value + 1;
      i := i + 1;
    }
  }

  /** The legacy generator's enumerator comment: empty when the enumerator
      has no comments at all, its description when it has one, and a lookup
      failure (`None`) when it has comments but no description. */
  function LegacyComment(comments: Comments): (r: Option<string>)
    ensures r.None? <==> |comments| > 0 && DescriptionTag !in comments
    ensures r.Some? && |comments| > 0 ==> r.value == comments[DescriptionTag]
    ensures |comments| == 0 ==> r == Some("")
  {
    if |comments| == 0 then Some("")
    else if DescriptionTag in comments then Some(comments[DescriptionTag])
    else None
  }

  function LegacyRow(e: Enumerator, value: int, comment: string): string {
    "|" + e.name + "|" + IntToString(value) + "|" + comment
  }

  /** The enumerator loop of the legacy generator: one row per enumerator,
      numbered like the current generator, with the raw description in the
      third cell; `None` when an enumerator's comments lack a description. */
  method LegacyEnumeratorRows(es: seq<Enumerator>) returns (rows: Option<seq<string>>)
    ensures rows.Some? <==> forall k :: 0 <= k < |es| ==> LegacyComment(es[k].comments).Some?
    ensures rows.Some? ==>
      && |rows.value| == |es|
      && forall k :: 0 <= k < |es| ==>
           rows.value[k] == LegacyRow(es[k], Numbering(es, 0)[k], LegacyComment(es[k].comments).value)
  {
    var value := 0;
    var acc: seq<string> := [];
    var i := 0;
    while i < |es|
      invariant 0 <= i <= |es|
      invariant LegacyRowsSoFar(es, 0, acc, i)
      invariant i > 0 ==> value == Numbering(es, 0)[i - 1] + 1
      invariant i == 0 ==> value == 0
    {
      var comment := LegacyComment(es[i].comments);
      if comment.None? {
        return None;
      }
      NumberingStep(es, 0, i, value);
      if es[i].value.Some? {
        value := es[i].value.value;
      }
      LegacyRowsExtend(es, 0, acc, i, LegacyRow(es[i], value, comment.value));
      acc := acc + [LegacyRow(es[i], value, comment.value)];
      value := value + 1;
      i := i + 1;
    }
    rows := Some(acc);
  }

  /** The first `n` legacy rows are in `acc`, and none of their lookups failed. */
  predicate LegacyRowsSoFar(es: seq<Enumerator>, start: int, acc: seq<string>, n: nat)
    requires n <= |es|
  {
    && |acc| == n
    && forall k :: 0 <= k < n ==>
         && LegacyComment(es[k].comments).Some?
         && acc[k] == LegacyRow(es[k], Numbering(es, start)[k], LegacyComment(es[k].comments).value)
  }

  lemma LegacyRowsExtend(es: seq<Enumerator>, start: int, acc: seq<string>, i: nat, row: string)
    requires i < |es| && LegacyRowsSoFar(es, start, acc, i)
    requires LegacyComment(es[i].comments).Some?
    requires row == LegacyRow(es[i], Numbering(es, start)[i], LegacyComment(es[i].comments).value)
    ensures LegacyRowsSoFar(es, start, acc + [row], i + 1)
  {
    var next := acc + [row];
    assert next[i] == row;
    forall k | 0 <= k < i
      ensures next[k] == acc[k]
    {
    }
  }

  /** The cell line of an enumerator printed with `value`. */
  function EnumeratorCell(e: Enumerator, value: int): string {
    "|" + e.name + "|" + IntToString(value) + "|"
  }

  /** Rows of `process_enumerators`, given the values to print: per
      enumerator, its cell line followed by its description lines. */
  function EnumeratorRows(ns: Namespace, es: seq<Enumerator>, vals: seq<int>): (r: seq<string>)
    requires |vals| == |es|
    ensures |r| >= |es|
    decreases |es|
  {
    if |es| == 0 then []
    else [EnumeratorCell(es[0], vals[0])] + Description(ns, es[0].comments) + EnumeratorRows(ns, es[1..], vals[1..])
  }

  lemma EnumeratorRowsOne(ns: Namespace, e: Enumerator, value: int)
    ensures EnumeratorRows(ns, [e], [value]) == [EnumeratorCell(e, value)] + Description(ns, e.comments)
  {
    assert [e][1..] == [] && [value][1..] == [];
  }

  lemma {:induction false} EnumeratorRowsAppend(ns: Namespace, a: seq<Enumerator>, va: seq<int>,
                                                 b: seq<Enumerator>, vb: seq<int>)
    requires |va| == |a| && |vb| == |b|
    ensures EnumeratorRows(ns, a + b, va + vb) == EnumeratorRows(ns, a, va) + EnumeratorRows(ns, b, vb)
    decreases |a|
  {
    if |a| == 0 {
      assert a + b == b && va + vb == vb;
    } else {
      assert (a + b)[0] == a[0] && (va + vb)[0] == va[0];
      assert (a + b)[1..] == a[1..] + b && (va + vb)[1..] == va[1..] + vb;
      EnumeratorRowsAppend(ns, a[1..], va[1..], b, vb);
    }
  }

  // ---------------------------------------------------------------------
  // Used in
  // ---------------------------------------------------------------------

  const UsedInHeader := "\nUsed in: "
  const Separator := ", "

  /** The entries of a "used in" line: each referrer's link, preceded by a
      separator unless it equals `first`. */
  function UsedInEntries(refs: seq<MemberRef>, first: MemberRef): (r: seq<string>)
    ensures |r| == |refs| + Differing(refs, first)
    ensures Links(r) == seq(|refs|, i requires 0 <= i < |refs| => MemberLink(refs[i]))
    ensures Separators(r) == Differing(refs, first)
  {
    EntriesLinks(refs, first);
    Entries(refs, first)
  }

  /** The loop of `adoc_type_references`, entry after entry. */
  function Entries(refs: seq<MemberRef>, first: MemberRef): (r: seq<string>)
    ensures |r| == |refs| + Differing(refs, first)
    decreases |refs|
  {
    if |refs| == 0 then [] else EntryHead(refs[0], first) + Entries(refs[1..], first)
  }

  lemma {:induction false} EntriesLinks(refs: seq<MemberRef>, first: MemberRef)
    ensures Links(Entries(refs, first)) == seq(|refs|, i requires 0 <= i < |refs| => MemberLink(refs[i]))
    ensures Separators(Entries(refs, first)) == Differing(refs, first)
    decreases |refs|
  {
    if |refs| > 0 {
      var head, rest := EntryHead(refs[0], first), Entries(refs[1..], first);
      EntriesLinks(refs[1..], first);
      LinksAppend(head, rest);
      SeparatorsAppend(head, rest);
      LinkIsNotSeparator(refs[0]);
      if refs[0] != first {
        assert head == [Separator] + [MemberLink(refs[0])];
        assert Links(head) == [MemberLink(refs[0])] by {
          LinksAppend([Separator], [MemberLink(refs[0])]);
        }
      }
    }
  }

  /** One referrer's entry. */
  function EntryHead(x: MemberRef, first: MemberRef): (r: seq<string>)
    ensures |r| == if x != first then 2 else 1
    ensures r[|r| - 1] == MemberLink(x) && (x != first ==> r[0] == Separator)
  {
    (if x != first then [Separator] else []) + [MemberLink(x)]
  }

  /** Where the link of entry `i` sits among the entries: after the `i`
      earlier links and the separators of the entries up to and including
      it. */
  function EntryPosition(refs: seq<MemberRef>, first: MemberRef, i: nat): nat
    requires i < |refs|
  {
    i + Differing(refs[..i + 1], first)
  }

  /** Entry `i` is its referrer's link, and the line just before it is a
      separator exactly when the referrer differs from `first`. Together with
      the length, this fixes every line of the entries. */
  lemma UsedInEntryAt(refs: seq<MemberRef>, first: MemberRef, i: nat)
    requires i < |refs|
    ensures var r := UsedInEntries(refs, first);
      var p := EntryPosition(refs, first, i);
      && p < |r| && r[p] == MemberLink(refs[i])
      && (refs[i] != first <==> p > 0 && r[p - 1] == Separator)
  {
    EntryAt(refs, first, i);
  }

  lemma {:induction false} EntryAt(refs: seq<MemberRef>, first: MemberRef, i: nat)
    requires i < |refs|
    ensures var r := Entries(refs, first);
      var p := EntryPosition(refs, first, i);
      && p < |r| && r[p] == MemberLink(refs[i])
      && (refs[i] != first <==> p > 0 && r[p - 1] == Separator)
    decreases i
  {
    var rest := Entries(refs[1..], first);
    var head := EntryHead(refs[0], first);
    assert Entries(refs, first) == head + rest;
    DifferingPrefix(refs, first, i);
    LinkIsNotSeparator(refs[0]);
    if i == 0 {
      FirstEntry(head, rest, MemberLink(refs[0]), refs[0] != first);
    } else {
      EntryAt(refs[1..], first, i - 1);
      var q := EntryPosition(refs[1..], first, i - 1);
      assert EntryPosition(refs, first, i) == |head| + q;
      assert refs[1..][i - 1] == refs[i];
      LaterEntry(head, rest, q, MemberLink(refs[i]), refs[i] != first);
    }
  }

  lemma DifferingPrefix(refs: seq<MemberRef>, first: MemberRef, i: nat)
    requires i < |refs|
    ensures Differing(refs[..i + 1], first)
      == (if refs[0] != first then 1 else 0) + Differing(refs[1..][..i], first)
  {
    assert refs[..i + 1][1..] == refs[1..][..i];
  }

  lemma FirstEntry(head: seq<string>, rest: seq<string>, link: string, differs: bool)
    requires |head| == (if differs then 2 else 1) && head[|head| - 1] == link && link != Separator
    requires differs ==> head[0] == Separator
    ensures var p := |head| - 1;
      (head + rest)[p] == link && (differs <==> p > 0 && (head + rest)[p - 1] == Separator)
  {
  }

  /** An entry of `rest` keeps its line and its neighbour when `head`, which
      ends in a link, is put in front. */
  lemma LaterEntry(head: seq<string>, rest: seq<string>, q: nat, link: string, differs: bool)
    requires 0 < |head| && q < |rest| && head[|head| - 1] != Separator
    requires rest[q] == link && (differs <==> q > 0 && rest[q - 1] == Separator)
    ensures var p := |head| + q;
      (head + rest)[p] == link && (differs <==> p > 0 && (head + rest)[p - 1] == Separator)
  {
    assert (head + rest)[|head| + q] == rest[q];
    if q > 0 {
      assert (head + rest)[|head| + q - 1] == rest[q - 1];
    } else {
      assert (head + rest)[|head| - 1] == head[|head| - 1];
    }
  }

  lemma LinkIsNotSeparator(x: MemberRef)
    ensures MemberLink(x) != Separator
  {
    assert MemberLink(x)[0] == '<' && Separator[0] == ',';
  }

  /** The non-separator lines, in order. */
  function Links(lines: seq<string>): seq<string> {
    if |lines| == 0 then []
    else (if lines[0] == Separator then [] else [lines[0]]) + Links(lines[1..])
  }

  function Separators(lines: seq<string>): nat {
    if |lines| == 0 then 0 else (if lines[0] == Separator then 1 else 0) + Separators(lines[1..])
  }

  /** How many of `refs` differ from `first`. */
  function Differing(refs: seq<MemberRef>, first: MemberRef): nat {
    if |refs| == 0 then 0 else (if refs[0] != first then 1 else 0) + Differing(refs[1..], first)
  }

  lemma {:induction false} LinksAppend(a: seq<string>, b: seq<string>)
    ensures Links(a + b) == Links(a) + Links(b)
    decreases |a|
  {
    if |a| == 0 {
      assert a + b == b;
    } else {
      assert (a + b)[0] == a[0];
      assert (a + b)[1..] == a[1..] + b;
      LinksAppend(a[1..], b);
    }
  }

  lemma {:induction false} SeparatorsAppend(a: seq<string>, b: seq<string>)
    ensures Separators(a + b) == Separators(a) + Separators(b)
    decreases |a|
  {
    if |a| == 0 {
      assert a + b == b;
    } else {
      assert (a + b)[0] == a[0];
      assert (a + b)[1..] == a[1..] + b;
      SeparatorsAppend(a[1..], b);
    }
  }

  /** `adoc_type_references`: nothing when the index has no entry for `k`;
      otherwise the header, then one link per recorded referrer in order,
      with a separator before every entry unequal to the first. */
  function UsedIn(index: Index, k: TypeKey): (r: seq<string>)
    ensures k !in index ==> r == []
    ensures k in index ==>
      && |r| == 1 + |index[k]| + (if |index[k]| > 0 then Differing(index[k], index[k][0]) else 0)
      && r[0] == UsedInHeader
      && Links(r[1..]) == seq(|index[k]|, i requires 0 <= i < |index[k]| => MemberLink(index[k][i]))
      && (|index[k]| > 0 ==> Separators(r[1..]) == Differing(index[k], index[k][0]))
  {
    if k in index then
      var refs := index[k];
      var entries := if |refs| == 0 then [] else UsedInEntries(refs, refs[0]);
      assert ([UsedInHeader] + entries)[1..] == entries;
      [UsedInHeader] + entries
    else []
  }

  /** In a "used in" line, the link of the `i`-th recorded referrer is
      preceded by a separator exactly when that referrer differs from the
      first one recorded. */
  lemma UsedInEntryPlaced(index: Index, k: TypeKey, i: nat)
    requires k in index && i < |index[k]|
    ensures var refs := index[k];
      var r := UsedIn(index, k);
      var p := 1 + EntryPosition(refs, refs[0], i);
      && p < |r| && r[p] == MemberLink(refs[i])
      && (refs[i] != refs[0] <==> r[p - 1] == Separator)
  {
    var refs := index[k];
    var entries := UsedInEntries(refs, refs[0]);
    assert UsedIn(index, k) == [UsedInHeader] + entries;
    UsedInEntryAt(refs, refs[0], i);
    assert UsedInHeader != Separator by {
      assert UsedInHeader[0] == '\n' && Separator[0] == ',';
    }
  }

  // ---------------------------------------------------------------------
  // Sections
  // ---------------------------------------------------------------------

  /** `adoc_major_section_title`: a banner named after the class of the
      list's first item, pluralised; nothing for an empty list. */
  function MajorSectionTitle(items: seq<Member>): (r: seq<string>)
    ensures |items| == 0 <==> r == []
    ensures |items| > 0 ==> r == ["\n== " + KindName(items[0]) + "s\n"]
  {
    if |items| > 0 then ["\n== " + KindName(items[0]) + "s\n"] else []
  }

  /** The banner of a list whose items are all of one kind names that
      kind, pluralised. */
  lemma BannerNamesKind(items: seq<Member>, kind: string)
    requires |items| > 0
    requires forall i :: 0 <= i < |items| ==> KindName(items[i]) == kind
    ensures MajorSectionTitle(items) == ["\n== " + kind + "s\n"]
  {
    assert KindName(items[0]) == kind;
  }

  /** The "used in" line of a named-type member. */
  function UsedInFor(index: Index, ns: Namespace, m: Member): seq<string>
    requires m.IsTypeDefinition()
  {
    UsedIn(index, DefinedKey(DefOf(ns.name, m)))
  }

  /** The `process_*` handler for one member: its section title, then the
      section body. */
  function RenderMember(ns: Namespace, m: Member, index: Index): (r: seq<string>)
    ensures |r| >= 2 && r[..2] == SectionTitle(ns.name, m)
  {
    var title := SectionTitle(ns.name, m);
    var body := SectionBody(ns, m, index);
    assert (title + body)[..2] == title;
    title + body
  }

  /** What each `process_*` handler appends after the section title. */
  function SectionBody(ns: Namespace, m: Member, index: Index): seq<string> {
    match m
    case Method(_, ins, outs, c) =>
      Description(ns, c)
        + Table(InputTitle, ArgColumns, ins, ArgRows(ns, ins))
        + Table(OutputTitle, ArgColumns, outs, ArgRows(ns, outs))
    case Attribute(_, t, c) =>
      ["\nAttribute data type: " + TypeName(t)] + Description(ns, c)
    case Broadcast(_, outs, c) =>
      Description(ns, c) + Table(OutputTitle, ArgColumns, outs, ArgRows(ns, outs))
    case Struct(_, fields, c) =>
      Description(ns, c) + UsedInFor(index, ns, m)
        + Table("Struct fields:", ArgColumns, fields, FieldRows(ns, fields))
    case Enumeration(_, es, c) =>
      Description(ns, c) + UsedInFor(index, ns, m)
        + Table("", EnumeratorColumns, es, EnumeratorRows(ns, es, Numbering(es, 0)))
    case Array(_, e, c) =>
      ["Array element data type: " + TypeName(Scalar(e)) + "\n"] + Description(ns, c)
        + UsedInFor(index, ns, m)
    case Map(_, k, v, c) =>
      ["Key type: " + TypeName(Scalar(k)) + "\n", "Value type: " + TypeName(Scalar(v)) + "\n"]
        + Description(ns, c) + UsedInFor(index, ns, m)
  }

  /** Where the "used in" line of a named type's section goes: after the
      title, the element, key and value type lines, and the description. */
  function UsedInOffset(ns: Namespace, m: Member): nat {
    2 + (if m.Array? then 1 else if m.Map? then 2 else 0) + |Description(ns, m.comments)|
  }

  /** Only the "used in" line of a section depends on pass 1: a named
      type's section is its section over an empty index with the "used in"
      line inserted at `UsedInOffset`. */
  lemma UsedInPlacement(ns: Namespace, m: Member, index: Index)
    requires m.IsTypeDefinition()
    ensures var r := RenderMember(ns, m, index);
      var bare := RenderMember(ns, m, map[]);
      var p := UsedInOffset(ns, m);
      var u := UsedInFor(index, ns, m);
      && p <= |bare|
      && r == bare[..p] + u + bare[p..]
  {
    var pre, post := SectionLead(ns, m), TypeBodyTail(ns, m);
    TypeBodyParts(ns, m, index);
    TypeBodyParts(ns, m, map[]);
    EmptyIndexNoUsedIn(ns, m);
    SpliceAt(RenderMember(ns, m, index), RenderMember(ns, m, map[]), pre, UsedInFor(index, ns, m), post);
  }

  lemma EmptyIndexNoUsedIn(ns: Namespace, m: Member)
    requires m.IsTypeDefinition()
    ensures UsedInFor(map[], ns, m) == []
  {
  }

  /** A named type's section up to its "used in" line. */
  function SectionLead(ns: Namespace, m: Member): (r: seq<string>)
    ensures |r| == UsedInOffset(ns, m)
  {
    SectionTitle(ns.name, m) + (TypeLines(ns, m) + Description(ns, m.comments))
  }

  /** The element, key and value type lines of an array or map section. */
  function TypeLines(ns: Namespace, m: Member): (r: seq<string>)
    ensures |r| == if m.Array? then 1 else if m.Map? then 2 else 0
  {
    match m
    case Array(_, e, _) => ["Array element data type: " + TypeName(Scalar(e)) + "\n"]
    case Map(_, k, v, _) => ["Key type: " + TypeName(Scalar(k)) + "\n", "Value type: " + TypeName(Scalar(v)) + "\n"]
    case _ => []
  }

  /** What a named type's section has after its "used in" line. */
  function TypeBodyTail(ns: Namespace, m: Member): seq<string> {
    match m
    case Struct(_, fields, _) => Table("Struct fields:", ArgColumns, fields, FieldRows(ns, fields))
    case Enumeration(_, es, _) => Table("", EnumeratorColumns, es, EnumeratorRows(ns, es, Numbering(es, 0)))
    case _ => []
  }

  lemma TypeBodyParts(ns: Namespace, m: Member, index: Index)
    requires m.IsTypeDefinition()
    ensures RenderMember(ns, m, index) == SectionLead(ns, m) + UsedInFor(index, ns, m) + TypeBodyTail(ns, m)
  {
    var t := SectionTitle(ns.name, m);
    assert RenderMember(ns, m, index) == t + SectionBody(ns, m, index);
    BodyParts(ns, m, index);
    Regroup(t, TypeLines(ns, m) + Description(ns, m.comments), UsedInFor(index, ns, m), TypeBodyTail(ns, m));
  }

  lemma Regroup(a: seq<string>, b: seq<string>, c: seq<string>, d: seq<string>)
    ensures a + (b + c + d) == (a + b) + c + d
  {
  }

  lemma BodyParts(ns: Namespace, m: Member, index: Index)
    requires m.IsTypeDefinition()
    ensures SectionBody(ns, m, index)
      == (TypeLines(ns, m) + Description(ns, m.comments)) + UsedInFor(index, ns, m) + TypeBodyTail(ns, m)
  {
    var d := Description(ns, m.comments);
    var u := UsedInFor(index, ns, m);
    match m {
      case Struct(_, _, _) =>
        assert [] + d == d;
      case Enumeration(_, _, _) =>
        assert [] + d == d;
      case Array(_, _, _) =>
        assert TypeBodyTail(ns, m) == [];
      case Map(_, _, _, _) =>
        assert TypeBodyTail(ns, m) == [];
    }
  }

  lemma SpliceAt(r: seq<string>, bare: seq<string>, pre: seq<string>, u: seq<string>, post: seq<string>)
    requires r == pre + u + post && bare == pre + [] + post
    ensures |pre| <= |bare| && r == bare[..|pre|] + u + bare[|pre|..]
  {
    assert bare == pre + post;
    assert bare[..|pre|] == pre && bare[|pre|..] == post;
  }

  /** The sections of attributes, methods and broadcasts do not depend on
      pass 1 at all. */
  lemma SectionIgnoresIndex(ns: Namespace, m: Member, index: Index)
    requires !m.IsTypeDefinition()
    ensures RenderMember(ns, m, index) == RenderMember(ns, m, map[])
  {
  }

  /** A table is emitted only for a non-empty list: a method without
      arguments, a broadcast without out-arguments, a struct without fields
      and an enumeration without enumerators have no table, only their title,
      description and (for named types) "used in" line. */
  lemma NoEntriesNoTable(ns: Namespace, m: Member, index: Index)
    requires || (m.Method? && m.inArgs == [] && m.outArgs == [])
             || (m.Broadcast? && m.outArgs == [])
             || (m.Struct? && m.fields == [])
             || (m.Enumeration? && m.enumerators == [])
    ensures RenderMember(ns, m, index)
      == SectionTitle(ns.name, m) + Description(ns, m.comments)
         + (if m.IsTypeDefinition() then UsedInFor(index, ns, m) else [])
  {
    var d := Description(ns, m.comments);
    var u := if m.IsTypeDefinition() then UsedInFor(index, ns, m) else [];
    TitleAndBody(ns, m, index);
    EmptyTablesBody(ns, m, index, d, u);
    AppendBody(RenderMember(ns, m, index), SectionTitle(ns.name, m), SectionBody(ns, m, index), d, u);
  }

  lemma AppendBody(r: seq<string>, t: seq<string>, body: seq<string>, d: seq<string>, u: seq<string>)
    requires r == t + body && body == d + u
    ensures r == t + d + u
  {
  }

  lemma TitleAndBody(ns: Namespace, m: Member, index: Index)
    ensures RenderMember(ns, m, index) == SectionTitle(ns.name, m) + SectionBody(ns, m, index)
  {
  }

  lemma EmptyTablesBody(ns: Namespace, m: Member, index: Index, d: seq<string>, u: seq<string>)
    requires || (m.Method? && m.inArgs == [] && m.outArgs == [])
             || (m.Broadcast? && m.outArgs == [])
             || (m.Struct? && m.fields == [])
             || (m.Enumeration? && m.enumerators == [])
    requires d == Description(ns, m.comments)
    requires u == if m.IsTypeDefinition() then UsedInFor(index, ns, m) else []
    ensures SectionBody(ns, m, index) == d + u
  {
    if m.Method? || m.Broadcast? {
      EmptyCallBody(ns, m, index);
      assert d + u == d;
    } else {
      EmptyTypeBody(ns, m, index);
    }
  }

  lemma EmptyCallBody(ns: Namespace, m: Member, index: Index)
    requires (m.Method? && m.inArgs == [] && m.outArgs == []) || (m.Broadcast? && m.outArgs == [])
    ensures SectionBody(ns, m, index) == Description(ns, m.comments)
  {
    var d := Description(ns, m.comments);
    if m.Method? {
      assert SectionBody(ns, m, index) == d + [] + [];
    } else {
      assert SectionBody(ns, m, index) == d + [];
    }
  }

  lemma EmptyTypeBody(ns: Namespace, m: Member, index: Index)
    requires (m.Struct? && m.fields == []) || (m.Enumeration? && m.enumerators == [])
    ensures SectionBody(ns, m, index) == Description(ns, m.comments) + UsedInFor(index, ns, m)
  {
    var d, u := Description(ns, m.comments), UsedInFor(index, ns, m);
    assert SectionBody(ns, m, index) == d + u + [];
  }

  const Provenance := "\nThis section is generated from the Franca IDL file for interface "

  /** `process_interface`. The package and interface descriptions are
      emitted as given, without indentation fixing. */
  function InterfaceHeader(pkg: Package, ns: Namespace): (r: seq<string>)
    ensures var pd := GetComment(pkg.comments, DescriptionTag);
      var id := GetComment(ns.comments, DescriptionTag);
      && |r| == 3 + (if ns.version.Some? then 1 else 0) + (if Given(pd) then 1 else 0) + (if Given(id) then 1 else 0)
      && r[..2] == ["\n[[" + ns.name + "]]", "= Interface " + pkg.name + "." + ns.name]
      && (ns.version.Some? ==> r[2] == "\nVersion: " + ns.version.value)
      && var v := if ns.version.Some? then 1 else 0;
      && r[2 + v] == Provenance + ns.name + " in package " + pkg.name
      && (Given(pd) ==> r[3 + v] == "\nPackage description: " + pd.value)
      && (Given(id) ==> r[|r| - 1] == "\nInterface description: " + id.value)
  {
    var pd := GetComment(pkg.comments, DescriptionTag);
    var id := GetComment(ns.comments, DescriptionTag);
    var title := ["\n[[" + ns.name + "]]", "= Interface " + pkg.name + "." + ns.name];
    var version := if ns.version.Some? then ["\nVersion: " + ns.version.value] else [];
    var rest := [Provenance + ns.name + " in package " + pkg.name]
      + (if Given(pd) then ["\nPackage description: " + pd.value] else []);
    var last := if Given(id) then ["\nInterface description: " + id.value] else [];
    assert (title + version)[..2] == title;
    assert ns.version.Some? ==> (title + version)[2] == version[0];
    HeaderParts(title + version, rest, last);
    assert (title + version + rest + last)[|title + version|] == rest[0];
    assert Given(pd) ==> (title + version + rest + last)[|title + version| + 1] == rest[1];
    title + version + rest + last
  }

  lemma HeaderParts(a: seq<string>, b: seq<string>, c: seq<string>)
    ensures |a + b + c| == |a| + |b| + |c|
    ensures (a + b + c)[..|a|] == a
    ensures |c| == 1 ==> (a + b + c)[|a + b + c| - 1] == c[0]
  {
    assert (a + b + c)[..|a|] == a;
  }

  /** `process_typecollection`. */
  function TypeCollectionHeader(pkg: Package, ns: Namespace): (r: seq<string>)
    ensures |r| == 2 && r[0] == "\n[[" + ns.name + "]]"
    ensures r[1] == "= Type Collection " + pkg.name + "." + ns.name
  {
    ["\n[[" + ns.name + "]]", "= Type Collection " + pkg.name + "." + ns.name]
  }

  /** A namespace section's anchor is the namespace name; a member's is
      namespace, `-`, member name. With `-`-free namespace names (Franca
      identifiers) no namespace anchor equals a member anchor. */
  lemma NamespaceAnchorsAreDistinct(pkg: Package, ns: Namespace, other: Namespace, m: Member)
    requires '-' !in ns.name
    ensures var a := InterfaceHeader(pkg, ns)[0];
      a == TypeCollectionHeader(pkg, ns)[0]
      && AnchorOf(a[1..]) == ns.name
      && AnchorOf(a[1..]) != AnchorOf(SectionTitle(other.name, m)[0])
  {
    var t := SectionTitle(other.name, m)[0];
    assert AnchorOf(t) == Anchor(other.name, m.name);
    assert Anchor(other.name, m.name)[|other.name|] == '-';
    var a := InterfaceHeader(pkg, ns)[0];
    assert a[1..] == "[[" + ns.name + "]]";
  }

  /** How many of `refs` equal `first`, subtracted from their number. */
  lemma {:induction false} DifferingCount(refs: seq<MemberRef>, first: MemberRef)
    ensures Differing(refs, first) == |refs| - multiset(refs)[first]
    decreases |refs|
  {
    if |refs| > 0 {
      DifferingCount(refs[1..], first);
      assert refs == [refs[0]] + refs[1..];
      assert multiset(refs) == multiset{refs[0]} + multiset(refs[1..]);
    }
  }

  /** The "used in" loop compares every entry with the first by value, so
      each later repeat of the first referrer is emitted without a
      separator: there are as many separators as entries, less the number of
      times the first referrer occurs. */
  lemma UsedInSeparators(refs: seq<MemberRef>)
    requires |refs| > 0
    ensures Separators(UsedInEntries(refs, refs[0])) == |refs| - multiset(refs)[refs[0]]
    ensures Separators(UsedInEntries(refs, refs[0])) == |refs| - 1 <==> multiset(refs)[refs[0]] == 1
  {
    DifferingCount(refs, refs[0]);
  }

  // ---------------------------------------------------------------------
  // A worked section
  // ---------------------------------------------------------------------

  const Int32 := Scalar(Primitive("int32"))

  /** `Calc.Add(in a: int32, b: int32; out result: int32)`, without comments. */
  const CalcAdd := Method("Add", [TypedElement("a", Int32, map[]), TypedElement("b", Int32, map[])],
                          [TypedElement("result", Int32, map[])], map[])

  /** The section of `Calc.Add`: its title, an input table with rows for `a`
      and `b`, an output table with a row for `result`, and no description or
      see-also line. */
  lemma {:induction false} CalcAddExample(ns: Namespace, index: Index)
    requires ns.name == "Calc"
    ensures RenderMember(ns, CalcAdd, index)
      == ["[[Calc-Add]]", "=== Method Add\n"]
         + ["\n" + InputTitle + "\n", TableOptions, TableDelimiter, "|Type|Name|Description",
            "| int32 | a | ", "| int32 | b | ", TableDelimiter + "\n"]
         + ["\n" + OutputTitle + "\n", TableOptions, TableDelimiter, "|Type|Name|Description",
            "| int32 | result | ", TableDelimiter + "\n"]
  {
    CalcAddTitle(ns);
    CalcAddTables(ns);
    NoCommentsNoLines(ns);
    MethodSection(ns, CalcAdd, index);
    DropEmpty(RenderMember(ns, CalcAdd, index), SectionTitle(ns.name, CalcAdd), Description(ns, CalcAdd.comments),
      Table(InputTitle, ArgColumns, CalcAdd.inArgs, ArgRows(ns, CalcAdd.inArgs)),
      Table(OutputTitle, ArgColumns, CalcAdd.outArgs, ArgRows(ns, CalcAdd.outArgs)),
      ["[[Calc-Add]]", "=== Method Add\n"],
      ["\n" + InputTitle + "\n", TableOptions, TableDelimiter, "|Type|Name|Description",
       "| int32 | a | ", "| int32 | b | ", TableDelimiter + "\n"],
      ["\n" + OutputTitle + "\n", TableOptions, TableDelimiter, "|Type|Name|Description",
       "| int32 | result | ", TableDelimiter + "\n"]);
  }

  /** A method's section: title, description, input table, output table. */
  lemma MethodSection(ns: Namespace, m: Member, index: Index)
    requires m.Method?
    ensures RenderMember(ns, m, index)
      == SectionTitle(ns.name, m) + Description(ns, m.comments)
         + Table(InputTitle, ArgColumns, m.inArgs, ArgRows(ns, m.inArgs))
         + Table(OutputTitle, ArgColumns, m.outArgs, ArgRows(ns, m.outArgs))
  {
    var t := SectionTitle(ns.name, m);
    var d := Description(ns, m.comments);
    var ins := Table(InputTitle, ArgColumns, m.inArgs, ArgRows(ns, m.inArgs));
    var outs := Table(OutputTitle, ArgColumns, m.outArgs, ArgRows(ns, m.outArgs));
    assert SectionBody(ns, m, index) == d + ins + outs;
    assert RenderMember(ns, m, index) == t + SectionBody(ns, m, index);
    Regroup(t, d, ins, outs);
  }

  /** A section with an empty description is its title and its tables. */
  lemma DropEmpty(r: seq<string>, t: seq<string>, d: seq<string>, x: seq<string>, y: seq<string>,
                  t': seq<string>, x': seq<string>, y': seq<string>)
    requires r == t + d + x + y && d == []
    requires t == t' && x == x' && y == y'
    ensures r == t' + x' + y'
  {
    assert t + d == t;
  }

  lemma {:induction false} CalcAddTitle(ns: Namespace)
    requires ns.name == "Calc"
    ensures SectionTitle(ns.name, CalcAdd) == ["[[Calc-Add]]", "=== Method Add\n"]
  {
    var t := SectionTitle(ns.name, CalcAdd);
    assert t[0] == "[[" + ("Calc" + "-" + "Add") + "]]";
    assert t[1] == "=== " + "Method" + " " + "Add" + "\n";
    assert "[[" + ("Calc" + "-" + "Add") + "]]" == "[[Calc-Add]]";
    assert "=== " + "Method" + " " + "Add" + "\n" == "=== Method Add\n";
  }

  lemma {:induction false} CalcAddTables(ns: Namespace)
    ensures Table(InputTitle, ArgColumns, CalcAdd.inArgs, ArgRows(ns, CalcAdd.inArgs))
      == ["\n" + InputTitle + "\n", TableOptions, TableDelimiter, "|Type|Name|Description",
          "| int32 | a | ", "| int32 | b | ", TableDelimiter + "\n"]
    ensures Table(OutputTitle, ArgColumns, CalcAdd.outArgs, ArgRows(ns, CalcAdd.outArgs))
      == ["\n" + OutputTitle + "\n", TableOptions, TableDelimiter, "|Type|Name|Description",
          "| int32 | result | ", TableDelimiter + "\n"]
  {
    ArgHeader();
    CalcAddInputs(ns);
    CalcAddOutputs(ns);
  }

  lemma {:induction false} CalcAddInputs(ns: Namespace)
    requires HeaderRow(ArgColumns) == "|Type|Name|Description"
    ensures Table(InputTitle, ArgColumns, CalcAdd.inArgs, ArgRows(ns, CalcAdd.inArgs))
      == ["\n" + InputTitle + "\n", TableOptions, TableDelimiter, "|Type|Name|Description",
          "| int32 | a | ", "| int32 | b | ", TableDelimiter + "\n"]
  {
    var a, b := CalcAdd.inArgs[0], CalcAdd.inArgs[1];
    assert CalcAdd.inArgs == [a, b];
    PlainArgRow(ns, a, "a");
    PlainArgRow(ns, b, "b");
    RowLiterals();
    TwoRowTable(ns, InputTitle, a, b, "| int32 | a | ", "| int32 | b | ");
  }

  lemma {:induction false} CalcAddOutputs(ns: Namespace)
    requires HeaderRow(ArgColumns) == "|Type|Name|Description"
    ensures Table(OutputTitle, ArgColumns, CalcAdd.outArgs, ArgRows(ns, CalcAdd.outArgs))
      == ["\n" + OutputTitle + "\n", TableOptions, TableDelimiter, "|Type|Name|Description",
          "| int32 | result | ", TableDelimiter + "\n"]
  {
    var res := CalcAdd.outArgs[0];
    assert CalcAdd.outArgs == [res];
    PlainArgRow(ns, res, "result");
    RowLiterals();
    FilledTable(OutputTitle, [res], ["| int32 | result | "]);
  }

  /** A two-row argument table, written out. */
  lemma TwoRowTable(ns: Namespace, title: string, a: TypedElement, b: TypedElement, ra: string, rb: string)
    requires HeaderRow(ArgColumns) == "|Type|Name|Description"
    requires ArgRows(ns, [a]) == [ra] && ArgRows(ns, [b]) == [rb]
    ensures Table(title, ArgColumns, [a, b], ArgRows(ns, [a, b]))
      == ["\n" + title + "\n", TableOptions, TableDelimiter, "|Type|Name|Description", ra, rb, TableDelimiter + "\n"]
  {
    ArgRowsAppend(ns, [a], [b]);
    assert [a] + [b] == [a, b];
    assert ArgRows(ns, [a, b]) == [ra, rb];
    FilledTable(title, [a, b], [ra, rb]);
    TwoRows(["\n" + title + "\n", TableOptions, TableDelimiter, "|Type|Name|Description"], ra, rb, [TableDelimiter + "\n"]);
  }

  lemma TwoRows(head: seq<string>, ra: string, rb: string, tail: seq<string>)
    requires |head| == 4 && |tail| == 1
    ensures head + [ra, rb] + tail == [head[0], head[1], head[2], head[3], ra, rb, tail[0]]
  {
  }

  /** The rows of `a`, `b` and `result`, as literals. */
  lemma RowLiterals()
    ensures "| int32 | " + "a" + " | " == "| int32 | a | "
    ensures "| int32 | " + "b" + " | " == "| int32 | b | "
    ensures "| int32 | " + "result" + " | " == "| int32 | result | "
  {
  }

  lemma Int32Row(name: string, row: string)
    requires row == "| int32 | " + name + " | "
    ensures "| " + TypeName(Int32) + " | " + name + " | " == row
  {
    assert TypeName(Int32) == "int32";
    assert "| " + "int32" + " | " == "| int32 | ";
  }

  /** A table of argument rows, written out. */
  lemma {:induction false} FilledTable(title: string, entries: seq<TypedElement>, rows: seq<string>)
    requires |entries| > 0
    requires HeaderRow(ArgColumns) == "|Type|Name|Description"
    ensures Table(title, ArgColumns, entries, rows)
      == ["\n" + title + "\n", TableOptions, TableDelimiter, "|Type|Name|Description"] + rows + [TableDelimiter + "\n"]
  {
  }

  /** The row of an int32 argument without comments. */
  lemma {:induction false} PlainArgRow(ns: Namespace, arg: TypedElement, name: string)
    requires arg == TypedElement(name, Int32, map[])
    ensures ArgRows(ns, [arg]) == ["| int32 | " + name + " | "]
  {
    ArgRowsOne(ns, arg);
    NoCommentsNoLines(ns);
    Int32Row(name, "| int32 | " + name + " | ");
    OneRow(ArgRows(ns, [arg]), ArgCell(arg), Description(ns, arg.comments), "| int32 | " + name + " | ");
  }

  lemma OneRow(x: seq<string>, cell: string, d: seq<string>, row: string)
    requires x == [cell] + d && d == [] && cell == row
    ensures x == [row]
  {
    assert [cell] + [] == [cell];
  }

  lemma NoCommentsNoLines(ns: Namespace)
    ensures Description(ns, map[]) == []
  {
  }

  lemma ArgHeader()
    ensures HeaderRow(ArgColumns) == "|Type|Name|Description"
  {
    assert ArgColumns[1..][1..] == ["Description"];
    assert ArgColumns[1..] == ["Name", "Description"];
  }
}
