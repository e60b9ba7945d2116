/**
 * The handful of Python string operations the generator relies on:
 * `str.split(sep)`, `sep.join(parts)`, `str.split()` (no separator),
 * `str.isspace()`, `str.startswith` and `str(int)`.
 */
module Text {

  /** Python's whitespace class (`Py_UNICODE_ISSPACE`), used by both
      `str.isspace()` and the separator-less `str.split()`. */
  predicate IsWhitespace(c: char) {
    var n := c as int;
    (9 <= n <= 13) || (28 <= n <= 32) || n == 0x85 || n == 0xA0 || n == 0x1680
    || (0x2000 <= n <= 0x200A) || n == 0x2028 || n == 0x2029 || n == 0x202F
    || n == 0x205F || n == 0x3000
  }

  predicate NoWhitespace(s: string) {
    forall i :: 0 <= i < |s| ==> !IsWhitespace(s[i])
  }

  lemma NoWhitespaceConcat(a: string, b: string)
    requires NoWhitespace(a) && NoWhitespace(b)
    ensures NoWhitespace(a + b)
  {
    forall i | 0 <= i < |a + b|
      ensures !IsWhitespace((a + b)[i])
    {
      if i >= |a| {
        assert (a + b)[i] == b[i - |a|];
      }
    }
  }

  /** Python's `s.isspace()`: true only for a non-empty all-whitespace string. */
  predicate IsSpaceOnly(s: string) {
    |s| > 0 && forall i :: 0 <= i < |s| ==> IsWhitespace(s[i])
  }

  /** Python's `' ' * n`. */
  function Spaces(n: nat): (r: string)
    ensures |r| == n
    ensures forall i :: 0 <= i < n ==> r[i] == ' '
  {
    seq(n, _ => ' ')
  }

  /** Python's `s.startswith(prefix)`. */
  predicate StartsWith(s: string, prefix: string) {
    |prefix| <= |s| && s[..|prefix|] == prefix
  }

  /** Number of occurrences of `c` in `s`. */
  function Count(s: string, c: char): nat {
    if |s| == 0 then 0 else (if s[0] == c then 1 else 0) + Count(s[1..], c)
  }

  // ---------------------------------------------------------------------
  // s.split(sep) and sep.join(parts)
  // ---------------------------------------------------------------------

  /** Python's `s.split(sep)` for a one-character separator: always at least
      one part, one more part than there are separators, and no part holds
      the separator. */
  function Split(s: string, sep: char): (parts: seq<string>)
    ensures |parts| == Count(s, sep) + 1
    ensures forall i :: 0 <= i < |parts| ==> sep !in parts[i]
    decreases |s|
  {
    if |s| == 0 then [""]
    else
      var rest := Split(s[1..], sep);
      if s[0] == sep then [""] + rest
      else [[s[0]] + rest[0]] + rest[1..]
  }

  /** Python's `sep.join(parts)`. */
  function Join(parts: seq<string>, sep: char): string
    decreases |parts|
  {
    if |parts| == 0 then ""
    else if |parts| == 1 then parts[0]
    else parts[0] + [sep] + Join(parts[1..], sep)
  }

  lemma JoinCons(p: string, rest: seq<string>, sep: char)
    requires |rest| >= 1
    ensures Join([p] + rest, sep) == p + [sep] + Join(rest, sep)
  {
    assert ([p] + rest)[1..] == rest;
  }

  /** Joining the parts of a split gives the original text back. */
  lemma {:induction false} JoinSplit(s: string, sep: char)
    ensures Join(Split(s, sep), sep) == s
    decreases |s|
  {
    if |s| > 0 {
      var rest := Split(s[1..], sep);
      JoinSplit(s[1..], sep);
      if s[0] == sep {
        JoinCons("", rest, sep);
        assert s == [sep] + s[1..];
      } else if |rest| == 1 {
        assert Split(s, sep) == [[s[0]] + rest[0]];
        assert s == [s[0]] + s[1..];
      } else {
        var head := [s[0]] + rest[0];
        JoinCons(head, rest[1..], sep);
        JoinCons(rest[0], rest[1..], sep);
        assert rest == [rest[0]] + rest[1..];
        assert s == [s[0]] + s[1..];
      }
    }
  }

  /** Splitting text whose first `|a|` characters hold no separator extends
      the first part of the split of the remainder. */
  lemma {:induction false} SplitPrefix(a: string, b: string, sep: char)
    requires sep !in a
    ensures Split(a + b, sep) == [a + Split(b, sep)[0]] + Split(b, sep)[1..]
    decreases |a|
  {
    var sb := Split(b, sep);
    if |a| == 0 {
      assert a + b == b;
      assert a + sb[0] == sb[0];
      assert sb == [sb[0]] + sb[1..];
    } else {
      assert (a + b)[0] == a[0] && a[0] != sep;
      assert (a + b)[1..] == a[1..] + b;
      SplitPrefix(a[1..], b, sep);
      var r := Split(a[1..] + b, sep);
      assert r[0] == a[1..] + sb[0] && r[1..] == sb[1..];
      assert Split(a + b, sep) == [[a[0]] + r[0]] + r[1..];
      calc {
        [a[0]] + r[0];
        [a[0]] + (a[1..] + sb[0]);
        ([a[0]] + a[1..]) + sb[0];
        { assert a == [a[0]] + a[1..]; }
        a + sb[0];
      }
    }
  }

  /** Splitting joined parts gives the parts back, provided no part holds the
      separator. */
  lemma {:induction false} SplitJoin(parts: seq<string>, sep: char)
    requires |parts| >= 1
    requires forall i :: 0 <= i < |parts| ==> sep !in parts[i]
    ensures Split(Join(parts, sep), sep) == parts
    decreases |parts|
  {
    if |parts| == 1 {
      SplitPrefix(parts[0], "", sep);
      assert parts[0] + "" == parts[0];
    } else {
      var rest := parts[1..];
      SplitJoin(rest, sep);
      var tail := Join(rest, sep);
      assert Join(parts, sep) == parts[0] + ([sep] + tail);
      SplitPrefix(parts[0], [sep] + tail, sep);
      assert ([sep] + tail)[0] == sep;
      assert ([sep] + tail)[1..] == tail;
      var st := Split([sep] + tail, sep);
      assert st == [""] + rest;
      assert st[0] == "" && st[1..] == rest;
      assert parts[0] + "" == parts[0];
      assert parts == [parts[0]] + rest;
    }
  }

  // ---------------------------------------------------------------------
  // s.split() with no separator
  // ---------------------------------------------------------------------

  /** Python's `s.split()`: the maximal runs of non-whitespace characters,
      in order; runs of whitespace, leading and trailing whitespace vanish. */
  function Words(s: string): (ws: seq<string>)
    ensures forall i :: 0 <= i < |ws| ==> |ws[i]| > 0 && NoWhitespace(ws[i])
  {
    WordsFrom(s, "")
  }

  function Flush(word: string): seq<string> {
    if word == "" then [] else [word]
  }

  /** Scanner state for `Words`: `word` is the run read so far. */
  function WordsFrom(s: string, word: string): (ws: seq<string>)
    requires NoWhitespace(word)
    ensures forall i :: 0 <= i < |ws| ==> |ws[i]| > 0 && NoWhitespace(ws[i])
    decreases |s|
  {
    if |s| == 0 then Flush(word)
    else if IsWhitespace(s[0]) then Flush(word) + WordsFrom(s[1..], "")
    else WordsFrom(s[1..], word + [s[0]])
  }

  function Concat(ws: seq<string>): string {
    if |ws| == 0 then "" else ws[0] + Concat(ws[1..])
  }

  function RemoveWhitespace(s: string): string {
    if |s| == 0 then ""
    else (if IsWhitespace(s[0]) then "" else [s[0]]) + RemoveWhitespace(s[1..])
  }

  lemma {:induction false} ConcatAppend(a: seq<string>, b: seq<string>)
    ensures Concat(a + b) == Concat(a) + Concat(b)
    decreases |a|
  {
    if |a| == 0 {
      assert a + b == b;
    } else {
      assert (a + b)[0] == a[0];
      assert (a + b)[1..] == a[1..] + b;
      ConcatAppend(a[1..], b);
    }
  }

  lemma {:induction false} WordsFromKeepsLetters(s: string, word: string)
    requires NoWhitespace(word)
    ensures Concat(WordsFrom(s, word)) == word + RemoveWhitespace(s)
    decreases |s|
  {
    if |s| == 0 {
      ConcatFlush(word);
    } else if IsWhitespace(s[0]) {
      assert WordsFrom(s, word) == Flush(word) + WordsFrom(s[1..], "");
      assert RemoveWhitespace(s) == "" + RemoveWhitespace(s[1..]);
      WordsFromKeepsLetters(s[1..], "");
      ConcatAppend(Flush(word), WordsFrom(s[1..], ""));
      ConcatFlush(word);
    } else {
      assert WordsFrom(s, word) == WordsFrom(s[1..], word + [s[0]]);
      assert RemoveWhitespace(s) == [s[0]] + RemoveWhitespace(s[1..]);
      WordsFromKeepsLetters(s[1..], word + [s[0]]);
      assert word + [s[0]] + RemoveWhitespace(s[1..]) == word + RemoveWhitespace(s);
    }
  }

  lemma ConcatFlush(word: string)
    ensures Concat(Flush(word)) == word
  {
    if word != "" {
      assert Concat([word]) == word + Concat([]);
    }
  }

  /** The words hold exactly the non-whitespace characters of the text, in order. */
  lemma WordsKeepLetters(s: string)
    ensures Concat(Words(s)) == RemoveWhitespace(s)
  {
    WordsFromKeepsLetters(s, "");
  }

  lemma {:induction false} RemoveWhitespaceEmpty(s: string)
    ensures RemoveWhitespace(s) == "" <==> forall i :: 0 <= i < |s| ==> IsWhitespace(s[i])
    decreases |s|
  {
    if |s| > 0 {
      RemoveWhitespaceEmpty(s[1..]);
      assert forall i :: 1 <= i < |s| ==> s[i] == s[1..][i - 1];
    }
  }

  lemma {:induction false} ConcatEmpty(ws: seq<string>)
    requires forall i :: 0 <= i < |ws| ==> |ws[i]| > 0
    ensures Concat(ws) == "" <==> ws == []
  {
  }

  /** `s.split()` is empty exactly when the text is empty or all whitespace. */
  lemma NoWordsIffBlank(s: string)
    ensures Words(s) == [] <==> forall i :: 0 <= i < |s| ==> IsWhitespace(s[i])
  {
    WordsKeepLetters(s);
    ConcatEmpty(Words(s));
    RemoveWhitespaceEmpty(s);
  }

  lemma {:induction false} WordsFromSkipsWord(w: string, rest: string, word: string)
    requires NoWhitespace(word) && NoWhitespace(w)
    ensures WordsFrom(w + rest, word) == WordsFrom(rest, word + w)
    decreases |w|
  {
    if |w| == 0 {
      assert w + rest == rest && word + w == word;
    } else {
      assert (w + rest)[0] == w[0] && !IsWhitespace(w[0]);
      assert (w + rest)[1..] == w[1..] + rest;
      WordsFromSkipsWord(w[1..], rest, word + [w[0]]);
      assert word + [w[0]] + w[1..] == word + w;
    }
  }

  /** `split()` cuts at every whitespace character: the words of a text with
      a whitespace character in it are the words before it followed by the
      words after it. */
  lemma WordsSplitAt(a: string, c: char, b: string)
    requires IsWhitespace(c)
    ensures Words(a + [c] + b) == Words(a) + Words(b)
  {
    WordsFromSplitAt(a, c, b, "");
  }

  lemma {:induction false} WordsFromSplitAt(a: string, c: char, b: string, word: string)
    requires IsWhitespace(c) && NoWhitespace(word)
    ensures WordsFrom(a + [c] + b, word) == WordsFrom(a, word) + WordsFrom(b, "")
    decreases |a|
  {
    var s := a + [c] + b;
    if |a| == 0 {
      assert s == [c] + b && s[0] == c && s[1..] == b;
    } else {
      assert s[0] == a[0];
      assert s[1..] == a[1..] + [c] + b;
      if IsWhitespace(a[0]) {
        WordsFromSplitAt(a[1..], c, b, "");
      } else {
        WordsFromSplitAt(a[1..], c, b, word + [a[0]]);
      }
    }
  }

  /** A non-empty text without whitespace is one word. */
  lemma OneWord(w: string)
    requires |w| > 0 && NoWhitespace(w)
    ensures Words(w) == [w]
  {
    WordsFromSkipsWord(w, "", "");
    assert w + "" == w && "" + w == w;
  }

  /** Splitting words joined by single spaces gives the words back. */
  lemma {:induction false} WordsJoin(ws: seq<string>)
    requires forall i :: 0 <= i < |ws| ==> |ws[i]| > 0 && NoWhitespace(ws[i])
    ensures Words(Join(ws, ' ')) == ws
    decreases |ws|
  {
    if |ws| == 1 {
      WordsFromSkipsWord(ws[0], "", "");
      assert ws[0] + "" == ws[0];
    } else if |ws| > 1 {
      var tail := Join(ws[1..], ' ');
      JoinCons(ws[0], ws[1..], ' ');
      assert Join(ws, ' ') == ws[0] + ([' '] + tail);
      WordsFromSkipsWord(ws[0], [' '] + tail, "");
      assert "" + ws[0] == ws[0];
      assert ([' '] + tail)[0] == ' ' && IsWhitespace(' ');
      assert ([' '] + tail)[1..] == tail;
      assert WordsFrom([' '] + tail, ws[0]) == Flush(ws[0]) + WordsFrom(tail, "");
      WordsJoin(ws[1..]);
      assert ws == [ws[0]] + ws[1..];
    }
  }

  // ---------------------------------------------------------------------
  // str(int)
  // ---------------------------------------------------------------------

  predicate IsDigit(c: char) {
    '0' <= c <= '9'
  }

  function DigitChar(d: nat): (c: char)
    requires d < 10
    ensures IsDigit(c)
  {
    "0123456789"[d]
  }

  function DigitValue(c: char): (d: nat)
    requires IsDigit(c)
    ensures d < 10
  {
    (c as int - '0' as int) as nat
  }

  /** Python's `str(n)` for a non-negative integer: decimal digits, no
      leading zero unless the number is zero. */
  function NatToString(n: nat): (s: string)
    ensures |s| >= 1
    ensures forall i :: 0 <= i < |s| ==> IsDigit(s[i])
    ensures |s| > 1 ==> s[0] != '0'
  {
    if n < 10 then [DigitChar(n)] else NatToString(n / 10) + [DigitChar(n % 10)]
  }

  /** Python's `str(i)`. */
  function IntToString(i: int): (s: string)
    ensures |s| >= 1
    ensures s[0] == '-' <==> i < 0
  {
    if i < 0 then "-" + NatToString(-i) else NatToString(i)
  }

  /** Decimal value of a digit string (Python's `int(s)` on such text). */
  function ParseNat(s: string): nat
    requires forall i :: 0 <= i < |s| ==> IsDigit(s[i])
  {
    if |s| == 0 then 0 else ParseNat(s[..|s| - 1]) * 10 + DigitValue(s[|s| - 1])
  }

  function ParseInt(s: string): int
    requires |s| >= 1
    requires forall i :: 1 <= i < |s| ==> IsDigit(s[i])
    requires s[0] == '-' || IsDigit(s[0])
  {
    if s[0] == '-' then -(ParseNat(s[1..]) as int) else ParseNat(s)
  }

  lemma {:induction false} ParseNatToString(n: nat)
    ensures ParseNat(NatToString(n)) == n
  {
    if n >= 10 {
      var s := NatToString(n);
      assert s[..|s| - 1] == NatToString(n / 10);
      ParseNatToString(n / 10);
    } else {
      assert "0123456789"[n] as int - '0' as int == n;
    }
  }

  /** `str` on integers is undone by parsing: the rendered text denotes the number. */
  lemma IntToStringRoundTrip(i: int)
    ensures var s := IntToString(i);
      && (forall k :: 1 <= k < |s| ==> IsDigit(s[k]))
      && (s[0] == '-' || IsDigit(s[0]))
      && ParseInt(s) == i
  {
    var s := IntToString(i);
    if i < 0 {
      var t := NatToString(-i);
      assert s == "-" + t;
      assert s[1..] == t;
      forall k | 1 <= k < |s|
        ensures IsDigit(s[k])
      {
        assert s[k] == t[k - 1];
      }
      ParseNatToString(-i);
    } else {
      ParseNatToString(i);
    }
  }
}
