/** The Rust string operations the inventory code is written with:
    `char::is_whitespace`, `str::trim`, `str::split_whitespace`, `str::lines`,
    `Iterator::position`, `[String]::join` and decimal rendering of integers. */
module Text {
  import opened Wrappers

  /** Rust's `char::is_whitespace`: the Unicode White_Space property. */
  predicate IsWhitespace(c: char)
  {
    ('\t' <= c <= '\r') || c == ' ' || c == '\U{85}' || c == '\U{A0}' || c == '\U{1680}'
    || ('\U{2000}' <= c <= '\U{200A}') || c == '\U{2028}' || c == '\U{2029}'
    || c == '\U{202F}' || c == '\U{205F}' || c == '\U{3000}'
  }

  predicate AllWhitespace(s: string)
  {
    forall i :: 0 <= i < |s| ==> IsWhitespace(s[i])
  }

  predicate NoWhitespace(s: string)
  {
    forall i :: 0 <= i < |s| ==> !IsWhitespace(s[i])
  }

  /** Neither starts nor ends with whitespace. */
  predicate IsTrimmed(s: string)
  {
    s == [] || (!IsWhitespace(s[0]) && !IsWhitespace(s[|s| - 1]))
  }

  /** `Iterator::position` of the first element equal to `x`. */
  function Find<T(==)>(s: seq<T>, x: T): (r: Option<nat>)
    ensures r.None? <==> x !in s
    ensures r.Some? ==> r.value < |s| && s[r.value] == x && x !in s[..r.value]
  {
    if s == [] then None
    else if s[0] == x then Some(0)
    else
      match Find(s[1..], x)
      case None => None
      case Some(i) =>
        assert s[..i + 1] == [s[0]] + s[1..][..i];
        Some(i + 1)
  }

  /** `Iterator::skip(n)` collected: the elements after the first `n`. */
  function Skip<T>(s: seq<T>, n: nat): (r: seq<T>)
    ensures |r| == (if |s| <= n then 0 else |s| - n)
    ensures forall k :: 0 <= k < |r| ==> r[k] == s[n + k]
  {
    if |s| <= n then [] else s[n..]
  }

  /** `str::trim_start`: drops the whitespace prefix. */
  function TrimStart(s: string): (r: string)
    ensures |r| <= |s| && r == s[|s| - |r|..]
    ensures AllWhitespace(s[..|s| - |r|])
    ensures r == [] || !IsWhitespace(r[0])
  {
    if s != [] && IsWhitespace(s[0]) then
      TrimStart(s[1..])
    else s
  }

  /** `str::trim_end`: drops the whitespace suffix. */
  function TrimEnd(s: string): (r: string)
    ensures |r| <= |s| && r == s[..|r|]
    ensures AllWhitespace(s[|r|..])
    ensures r == [] || !IsWhitespace(r[|r| - 1])
  {
    if s != [] && IsWhitespace(s[|s| - 1]) then
      var r := TrimEnd(s[..|s| - 1]);
      assert forall i :: |r| <= i < |s| - 1 ==> s[i] == s[..|s| - 1][i];
      r
    else s
  }

  /** `str::trim`: the whitespace prefix is dropped, then the whitespace suffix
      (`TrimEndOfTrimStart`). The result is trimmed, and empty exactly when `s`
      is all whitespace. */
  function Trim(s: string): (r: string)
    ensures IsTrimmed(r) && |r| <= |s|
    ensures r == [] <==> AllWhitespace(s)
  {
    if s != [] && IsWhitespace(s[0]) then
      var r := Trim(s[1..]);
      assert AllWhitespace(s[1..]) ==> AllWhitespace(s) by {
        if AllWhitespace(s[1..]) {
          forall i | 1 <= i < |s| ensures IsWhitespace(s[i]) { assert s[i] == s[1..][i - 1]; }
        }
      }
      r
    else
      var r := TrimEnd(s);
      assert r != [] ==> r[0] == s[0];
      assert s == [] ==> AllWhitespace(s);
      assert s != [] ==> r != [] by {
        if s != [] { assert s[|s[..0]|..][0] == s[0]; }
      }
      r
  }

  /** The longest whitespace-free prefix of `s`. */
  function Word(s: string): (w: string)
    ensures |w| <= |s| && w == s[..|w|] && NoWhitespace(w)
    ensures |w| == |s| || IsWhitespace(s[|w|])
  {
    if s == [] || IsWhitespace(s[0]) then []
    else
      var w := Word(s[1..]);
      assert forall i :: 0 < i <= |w| ==> ([s[0]] + w)[i] == s[1..][i - 1];
      [s[0]] + w
  }

  /** `str::split_whitespace` collected: the maximal whitespace-free runs of `s`, in order. */
  function Tokens(s: string): (r: seq<string>)
    ensures forall k :: 0 <= k < |r| ==> r[k] != [] && NoWhitespace(r[k])
    decreases |s|
  {
    var t := TrimStart(s);
    if t == [] then []
    else
      var w := Word(t);
      assert w != [] by { assert !IsWhitespace(t[0]); }
      var rest := Tokens(t[|w|..]);
      assert forall k :: 0 < k <= |rest| ==> ([w] + rest)[k] == rest[k - 1];
      [w] + rest
  }

  /** `[String]::join(sep)`. */
  function Join(parts: seq<string>, sep: string): (r: string)
    ensures parts == [] ==> r == []
    ensures |parts| > 0 ==> |parts[0]| <= |r| && r[..|parts[0]|] == parts[0]
  {
    if |parts| == 0 then []
    else if |parts| == 1 then parts[0]
    else parts[0] + sep + Join(parts[1..], sep)
  }

  /** Reads back a list written by `Join(parts, ", ")` whose parts hold no comma. */
  function SplitCommaList(s: string): seq<string>
    decreases |s|
  {
    match Find(s, ',')
    case None => [s]
    case Some(i) => [s[..i]] + SplitCommaList(if i + 2 <= |s| then s[i + 2..] else [])
  }

  /** Removes one carriage return ending a line that a newline followed. */
  function StripCr(line: string): string
  {
    if line != [] && line[|line| - 1] == '\r' then line[..|line| - 1] else line
  }

  /** `str::lines` collected: split at "\n" or "\r\n"; a final line ending adds no empty line. */
  function Lines(s: string): (r: seq<string>)
    ensures forall k :: 0 <= k < |r| ==> '\n' !in r[k]
    decreases |s|
  {
    if s == [] then []
    else
      match Find(s, '\n')
      case None => [s]
      case Some(i) =>
        assert '\n' !in StripCr(s[..i]) by {
          if StripCr(s[..i]) != s[..i] {
            assert StripCr(s[..i]) == s[..i][..i - 1];
          }
        }
        [StripCr(s[..i])] + Lines(s[i + 1..])
  }

  /** `.map(trim).filter(non-empty)` over a sequence of lines. */
  function TrimmedNonBlank(lines: seq<string>): seq<string>
  {
    if lines == [] then []
    else
      var t := Trim(lines[0]);
      (if t == [] then [] else [t]) + TrimmedNonBlank(lines[1..])
  }

  /** The trimmed, non-blank lines of `s`, in order: the name-list and address-list parser. */
  function NonBlankLines(s: string): (r: seq<string>)
    ensures forall k :: 0 <= k < |r| ==> r[k] != [] && IsTrimmed(r[k])
  {
    TrimmedNonBlankEntries(Lines(s));
    TrimmedNonBlank(Lines(s))
  }

  /** Every line of `s` is blank. */
  predicate AllBlankLines(s: string)
  {
    forall k :: 0 <= k < |Lines(s)| ==> AllWhitespace(Lines(s)[k])
  }

  /** One line per element, each ended by a newline. */
  function Unlines(lines: seq<string>): string
  {
    if lines == [] then [] else lines[0] + "\n" + Unlines(lines[1..])
  }

  predicate IsDigit(c: char)
  {
    '0' <= c <= '9'
  }

  predicate AllDigits(s: string)
  {
    forall i :: 0 <= i < |s| ==> IsDigit(s[i])
  }

  /** The value of a string of decimal digits (leading zeros allowed). */
  function DecimalValue(s: string): nat
    requires AllDigits(s)
  {
    if s == [] then 0
    else DecimalValue(s[..|s| - 1]) * 10 + (s[|s| - 1] as int - '0' as int)
  }

  /** Rust's `Display` of a non-negative integer: digits without leading zeros, read back by DecimalValue. */
  function NatToDecimal(n: nat): (r: string)
    ensures r != [] && AllDigits(r) && DecimalValue(r) == n
    ensures r[0] != '0' || n == 0
    ensures |r| == 1 || r[0] != '0'
  {
    var d := [('0' as int + n % 10) as char];
    if n < 10 then d
    else
      var p := NatToDecimal(n / 10);
      assert (p + d)[..|p + d| - 1] == p;
      p + d
  }

  /** Rust's `Display` of an integer: a minus sign before negative values. */
  function IntToDecimal(n: int): string
  {
    if n < 0 then "-" + NatToDecimal(-n) else NatToDecimal(n)
  }

  // ---------------------------------------------------------------------
  // Lemmas

  /** `Find` returns the first occurrence. */
  lemma FindFirst<T>(s: seq<T>, x: T, i: nat)
    requires i < |s| && s[i] == x && x !in s[..i]
    ensures Find(s, x) == Some(i)
  {
    assert s[..i + 1][i] == x;
  }

  lemma {:induction false} TrimStartAfterWhitespace(p: string, x: string)
    requires AllWhitespace(p)
    ensures TrimStart(p + x) == TrimStart(x)
    decreases |p|
  {
    if p != [] {
      assert (p + x)[0] == p[0];
      assert (p + x)[1..] == p[1..] + x;
      TrimStartAfterWhitespace(p[1..], x);
    } else {
      assert p + x == x;
    }
  }

  lemma {:induction false} TrimEndBeforeWhitespace(x: string, q: string)
    requires AllWhitespace(q)
    ensures TrimEnd(x + q) == TrimEnd(x)
    decreases |q|
  {
    if q != [] {
      assert (x + q)[|x + q| - 1] == q[|q| - 1];
      assert (x + q)[..|x + q| - 1] == x + q[..|q| - 1];
      TrimEndBeforeWhitespace(x, q[..|q| - 1]);
    } else {
      assert x + q == x;
    }
  }

  lemma {:induction false} TrimStartBeforeWhitespace(s: string, q: string)
    requires AllWhitespace(q)
    ensures TrimStart(s + q) == if AllWhitespace(s) then [] else TrimStart(s) + q
    decreases |s|
  {
    if s == [] {
      assert s + q == q;
    } else if IsWhitespace(s[0]) {
      assert (s + q)[0] == s[0];
      assert (s + q)[1..] == s[1..] + q;
      TrimStartBeforeWhitespace(s[1..], q);
      assert AllWhitespace(s) <==> AllWhitespace(s[1..]) by {
        if AllWhitespace(s[1..]) {
          forall i | 0 < i < |s| ensures IsWhitespace(s[i]) { assert s[i] == s[1..][i - 1]; }
        }
      }
    } else {
      assert (s + q)[0] == s[0];
      assert !AllWhitespace(s);
    }
  }

  lemma {:induction false} TrimEndOfTrimStart(s: string)
    ensures Trim(s) == TrimEnd(TrimStart(s))
  {
    if s != [] && IsWhitespace(s[0]) {
      TrimEndOfTrimStart(s[1..]);
    }
  }

  /** Whitespace around a string does not change what `trim` returns. */
  lemma TrimPadded(p: string, s: string, q: string)
    requires AllWhitespace(p) && AllWhitespace(q)
    ensures Trim(p + s + q) == Trim(s)
  {
    var start := TrimStart(p + s + q);
    assert start == TrimStart(s + q) by {
      assert p + s + q == p + (s + q);
      TrimStartAfterWhitespace(p, s + q);
    }
    assert Trim(p + s + q) == TrimEnd(start) by { TrimEndOfTrimStart(p + s + q); }
    assert Trim(s) == TrimEnd(TrimStart(s)) by { TrimEndOfTrimStart(s); }
    TrimStartBeforeWhitespace(s, q);
    if AllWhitespace(s) {
      assert TrimStart(s) == [];
    } else {
      TrimEndBeforeWhitespace(TrimStart(s), q);
    }
  }

  /** `trim` leaves a trimmed string as it is, so it is idempotent. */
  lemma TrimOfTrimmed(s: string)
    requires IsTrimmed(s)
    ensures Trim(s) == s
  {
  }

  lemma {:induction false} WordBeforeWhitespace(w: string, x: string)
    requires NoWhitespace(w) && (x == [] || IsWhitespace(x[0]))
    ensures Word(w + x) == w
    decreases |w|
  {
    if w == [] {
      assert w + x == x;
    } else {
      assert (w + x)[0] == w[0];
      assert (w + x)[1..] == w[1..] + x;
      WordBeforeWhitespace(w[1..], x);
    }
  }

  /** Whitespace before a text does not change its tokens. */
  lemma TokensAfterWhitespace(p: string, x: string)
    requires AllWhitespace(p)
    ensures Tokens(p + x) == Tokens(x)
  {
    TrimStartAfterWhitespace(p, x);
  }

  lemma TokensOfWordFirst(w: string, x: string)
    requires w != [] && NoWhitespace(w) && (x == [] || IsWhitespace(x[0]))
    ensures Tokens(w + x) == [w] + Tokens(x)
  {
    var s := w + x;
    assert s[0] == w[0];
    assert TrimStart(s) == s;
    WordBeforeWhitespace(w, x);
    assert s[|w|..] == x;
  }

  lemma TokensOfSpaced(t: string, rest: string)
    requires t != [] && NoWhitespace(t)
    ensures Tokens(t + " " + rest) == [t] + Tokens(rest)
  {
    assert t + " " + rest == t + (" " + rest);
    TokensOfWordFirst(t, " " + rest);
    TokensAfterWhitespace(" ", rest);
  }

  lemma TokensOfJoinStep(toks: seq<string>)
    requires |toks| > 1 && toks[0] != [] && NoWhitespace(toks[0])
    requires Tokens(Join(toks[1..], " ")) == toks[1..]
    ensures Tokens(Join(toks, " ")) == toks
  {
    TokensOfSpaced(toks[0], Join(toks[1..], " "));
    assert toks == [toks[0]] + toks[1..];
  }

  /** Tokens joined by single spaces split back into the same tokens. */
  lemma {:induction false} TokensOfJoin(toks: seq<string>)
    requires forall k :: 0 <= k < |toks| ==> toks[k] != [] && NoWhitespace(toks[k])
    ensures Tokens(Join(toks, " ")) == toks
  {
    if |toks| == 1 {
      TokensOfWordFirst(toks[0], []);
      assert toks[0] + [] == toks[0];
    } else if |toks| > 1 {
      TokensOfJoin(toks[1..]);
      TokensOfJoinStep(toks);
    }
  }

  /** A list joined with ", " splits back into its parts when no part holds a comma. */
  lemma {:induction false} SplitCommaListOfJoin(parts: seq<string>)
    requires parts != []
    requires forall k :: 0 <= k < |parts| ==> ',' !in parts[k]
    ensures SplitCommaList(Join(parts, ", ")) == parts
  {
    if |parts| > 1 {
      var p, rest := parts[0], Join(parts[1..], ", ");
      var s := p + ", " + rest;
      assert Join(parts, ", ") == s;
      assert s[..|p|] == p;
      assert s[|p|] == ',';
      FindFirst(s, ',', |p|);
      assert s[|p| + 2..] == rest;
      assert SplitCommaList(s) == [p] + SplitCommaList(rest);
      SplitCommaListOfJoin(parts[1..]);
      assert parts == [p] + parts[1..];
    }
  }

  lemma {:induction false} TrimmedNonBlankAppend(a: seq<string>, b: seq<string>)
    ensures TrimmedNonBlank(a + b) == TrimmedNonBlank(a) + TrimmedNonBlank(b)
    decreases |a|
  {
    if a == [] {
      assert a + b == b;
    } else {
      assert (a + b)[0] == a[0];
      assert (a + b)[1..] == a[1..] + b;
      TrimmedNonBlankAppend(a[1..], b);
    }
  }

  /** At most one entry per line, each non-empty and without surrounding whitespace. */
  lemma {:induction false} TrimmedNonBlankEntries(lines: seq<string>)
    ensures |TrimmedNonBlank(lines)| <= |lines|
    ensures forall k :: 0 <= k < |TrimmedNonBlank(lines)| ==>
      TrimmedNonBlank(lines)[k] != [] && IsTrimmed(TrimmedNonBlank(lines)[k])
  {
    if lines != [] {
      TrimmedNonBlankEntries(lines[1..]);
      var t, rest := Trim(lines[0]), TrimmedNonBlank(lines[1..]);
      if t != [] {
        assert TrimmedNonBlank(lines) == [t] + rest;
        forall k | 0 < k < |rest| + 1 ensures ([t] + rest)[k] == rest[k - 1] { }
      }
    }
  }

  lemma TrimStripCr(line: string)
    ensures Trim(StripCr(line)) == Trim(line)
  {
    if StripCr(line) != line {
      var l := StripCr(line);
      assert [] + l + "\r" == line;
      TrimPadded([], l, "\r");
    }
  }

  /** A line without a newline yields its trimmed text, or nothing when blank. */
  lemma NonBlankLinesOfLine(line: string)
    requires '\n' !in line
    ensures NonBlankLines(line) == if Trim(line) == [] then [] else [Trim(line)]
  {
    if line != [] {
      assert Lines(line) == [line];
      assert [line][1..] == [];
      var t := Trim(line);
      assert TrimmedNonBlank([line]) == (if t == [] then [] else [t]) + [];
    }
  }

  lemma LinesOfFirstLine(a: string, b: string)
    requires '\n' !in a
    ensures Lines(a + "\n" + b) == [StripCr(a)] + Lines(b)
  {
    var s := a + "\n" + b;
    assert s[..|a|] == a;
    FindFirst(s, '\n', |a|);
    assert s[|a| + 1..] == b;
  }

  /** One step of `Lines`: the text up to the first newline, then the rest. */
  lemma LinesStep(s: string, i: nat)
    requires Find(s, '\n') == Some(i)
    ensures Lines(s) == [StripCr(s[..i])] + Lines(s[i + 1..])
  {
  }

  lemma LinesOfLaterLine(a: string, b: string, i: nat)
    requires Find(a, '\n') == Some(i)
    ensures Lines(a + "\n" + b) == [StripCr(a[..i])] + Lines(a[i + 1..] + "\n" + b)
    ensures Lines(a) == [StripCr(a[..i])] + Lines(a[i + 1..])
  {
    var s := a + "\n" + b;
    assert s[..i] == a[..i];
    assert s[i] == '\n';
    FindFirst(s, '\n', i);
    assert s[i + 1..] == a[i + 1..] + "\n" + b;
    LinesStep(s, i);
    LinesStep(a, i);
  }

  lemma NonBlankLinesAppendFirst(a: string, b: string)
    requires '\n' !in a
    ensures NonBlankLines(a + "\n" + b) == NonBlankLines(a) + NonBlankLines(b)
  {
    LinesOfFirstLine(a, b);
    TrimmedNonBlankAppend([StripCr(a)], Lines(b));
    TrimStripCr(a);
    assert [StripCr(a)][1..] == [];
    if a == [] {
      assert TrimmedNonBlank([StripCr(a)]) == [];
    } else {
      assert Lines(a) == [a];
      assert [a][1..] == [];
      assert TrimmedNonBlank([StripCr(a)]) == TrimmedNonBlank([a]);
    }
  }

  lemma NonBlankLinesOfLaterLine(a: string, b: string, i: nat)
    requires Find(a, '\n') == Some(i)
    ensures NonBlankLines(a + "\n" + b) == TrimmedNonBlank([StripCr(a[..i])]) + NonBlankLines(a[i + 1..] + "\n" + b)
  {
    LinesOfLaterLine(a, b, i);
    TrimmedNonBlankAppend([StripCr(a[..i])], Lines(a[i + 1..] + "\n" + b));
  }

  lemma NonBlankLinesSplitAt(a: string, i: nat)
    requires Find(a, '\n') == Some(i)
    ensures NonBlankLines(a) == TrimmedNonBlank([StripCr(a[..i])]) + NonBlankLines(a[i + 1..])
  {
    LinesOfLaterLine(a, [], i);
    TrimmedNonBlankAppend([StripCr(a[..i])], Lines(a[i + 1..]));
  }

  lemma ConcatRegroup<T>(x: seq<T>, z: seq<T>, f: seq<T>, y: seq<T>, w: seq<T>, t: seq<T>)
    requires x == f + y && z == f + w && y == w + t
    ensures x == z + t
  {
  }

  lemma NonBlankLinesAppendStep(a: string, b: string, i: nat)
    requires Find(a, '\n') == Some(i)
    requires NonBlankLines(a[i + 1..] + "\n" + b) == NonBlankLines(a[i + 1..]) + NonBlankLines(b)
    ensures NonBlankLines(a + "\n" + b) == NonBlankLines(a) + NonBlankLines(b)
  {
    NonBlankLinesOfLaterLine(a, b, i);
    NonBlankLinesSplitAt(a, i);
    ConcatRegroup(NonBlankLines(a + "\n" + b), NonBlankLines(a), TrimmedNonBlank([StripCr(a[..i])]),
                  NonBlankLines(a[i + 1..] + "\n" + b), NonBlankLines(a[i + 1..]), NonBlankLines(b));
  }

  /** Parsing distributes over joining two texts with a newline: the order of lines is kept. */
  lemma {:induction false} NonBlankLinesAppend(a: string, b: string)
    ensures NonBlankLines(a + "\n" + b) == NonBlankLines(a) + NonBlankLines(b)
    decreases |a|
  {
    match Find(a, '\n')
    case None =>
      NonBlankLinesAppendFirst(a, b);
    case Some(i) =>
      NonBlankLinesAppend(a[i + 1..], b);
      NonBlankLinesAppendStep(a, b, i);
  }

  /** Names written one per line parse back to the same names. */
  lemma {:induction false} NonBlankLinesOfUnlines(names: seq<string>)
    requires forall k :: 0 <= k < |names| ==> names[k] != [] && IsTrimmed(names[k]) && '\n' !in names[k]
    ensures NonBlankLines(Unlines(names)) == names
  {
    if names != [] {
      NonBlankLinesAppend(names[0], Unlines(names[1..]));
      NonBlankLinesOfLine(names[0]);
      TrimOfTrimmed(names[0]);
      NonBlankLinesOfUnlines(names[1..]);
      assert names == [names[0]] + names[1..];
    }
  }

  /** Lines written one per line, none ending in a carriage return, split back
      into the same lines. */
  lemma {:induction false} LinesOfUnlines(lines: seq<string>)
    requires forall k :: 0 <= k < |lines| ==> '\n' !in lines[k] && StripCr(lines[k]) == lines[k]
    ensures Lines(Unlines(lines)) == lines
  {
    if lines != [] {
      LinesOfFirstLine(lines[0], Unlines(lines[1..]));
      LinesOfUnlines(lines[1..]);
      assert lines == [lines[0]] + lines[1..];
    }
  }

  /** A digit string denotes zero exactly when every digit is '0'. */
  lemma {:induction false} DecimalValueZero(s: string)
    requires AllDigits(s)
    ensures DecimalValue(s) == 0 <==> forall i :: 0 <= i < |s| ==> s[i] == '0'
    decreases |s|
  {
    if s != [] {
      var p := s[..|s| - 1];
      DecimalValueZero(p);
      if forall i :: 0 <= i < |p| ==> p[i] == '0' {
        if s[|s| - 1] == '0' {
          forall i | 0 <= i < |s| ensures s[i] == '0' {
            if i < |p| { assert s[i] == p[i]; }
          }
        }
      } else {
        var i :| 0 <= i < |p| && p[i] != '0';
        assert s[i] == p[i];
      }
    }
  }

  lemma {:induction false} TrimmedNonBlankOfBlank(lines: seq<string>)
    requires forall k :: 0 <= k < |lines| ==> AllWhitespace(lines[k])
    ensures TrimmedNonBlank(lines) == []
  {
    if lines != [] {
      TrimmedNonBlankOfBlank(lines[1..]);
    }
  }

  /** Output made of blank lines has no entries. */
  lemma NonBlankLinesOfBlank(s: string)
    requires AllBlankLines(s)
    ensures NonBlankLines(s) == []
  {
    TrimmedNonBlankOfBlank(Lines(s));
  }
}
