/**
 * The string operations of Rust's standard library that the detectors rely on,
 * stated on `seq<char>`: `str::split` on a character, `str::lines`,
 * `str::split_whitespace`, `str::trim`, `str::contains`, `str::starts_with`
 * (Dafny's prefix `<=`) and the `FromStr` parsers of `u32` and `u64`.
 */
module Text {
  import opened Wrappers

  const NUL: char := '\0'

  // ---------------------------------------------------------------------------
  // Splitting on one character and joining back

  /** `s.split(d)`: the maximal pieces between occurrences of `d`; never empty. */
  function Split(s: string, d: char): (r: seq<string>)
    ensures |r| >= 1
    ensures forall k :: 0 <= k < |r| ==> d !in r[k]
    decreases |s|
  {
    if s == [] then [""]
    else
      var rest := Split(s[1..], d);
      if s[0] == d then [""] + rest
      else [[s[0]] + rest[0]] + rest[1..]
  }

  /** The pieces glued back together with `d` between neighbours. */
  function Join(pieces: seq<string>, d: char): string
    decreases |pieces|
  {
    if pieces == [] then ""
    else if |pieces| == 1 then pieces[0]
    else pieces[0] + [d] + Join(pieces[1..], d)
  }

  /** Joining the pieces of a split gives back the original string. */
  lemma {:induction false} JoinSplit(s: string, d: char)
    ensures Join(Split(s, d), d) == s
    decreases |s|
  {
    if s != [] {
      var rest := Split(s[1..], d);
      JoinSplit(s[1..], d);
      if s[0] == d {
        assert ([""] + rest)[1..] == rest;
      } else {
        var r := [[s[0]] + rest[0]] + rest[1..];
        assert r[1..] == rest[1..];
        if |rest| > 1 {
          assert rest[1..] != [];
        }
        assert s == [s[0]] + s[1..];
      }
    }
  }

  /** A piece of text without `d` splits into itself. */
  lemma {:induction false} SplitWithout(s: string, d: char)
    requires d !in s
    ensures Split(s, d) == [s]
    decreases |s|
  {
    if s != [] {
      SplitWithout(s[1..], d);
      assert s == [s[0]] + s[1..];
    }
  }

  /** Splitting distributes over one occurrence of the separator. */
  lemma {:induction false} SplitAround(x: string, d: char, y: string)
    ensures Split(x + [d] + y, d) == Split(x, d) + Split(y, d)
    decreases |x|
  {
    if x == [] {
      assert x + [d] + y == [d] + y;
      SplitCons(d, y, d);
    } else {
      var c, x' := x[0], x[1..];
      assert x == [c] + x';
      assert x + [d] + y == [c] + (x' + [d] + y);
      SplitAround(x', d, y);
      SplitCons(c, x', d);
      SplitCons(c, x' + [d] + y, d);
      StepAppend(c, d, Split(x', d), Split(y, d));
    }
  }

  /** The first step of `Split`, as a function of the pieces of the rest. */
  function Step(c: char, d: char, rest: seq<string>): seq<string>
    requires |rest| >= 1
  {
    if c == d then [""] + rest else [[c] + rest[0]] + rest[1..]
  }

  /** One step of `Split` on a text that starts with `c`. */
  lemma SplitCons(c: char, s: string, d: char)
    ensures Split([c] + s, d) == Step(c, d, Split(s, d))
  {
    assert ([c] + s)[0] == c;
    assert ([c] + s)[1..] == s;
  }

  lemma StepAppend(c: char, d: char, rx: seq<string>, ry: seq<string>)
    requires |rx| >= 1
    ensures Step(c, d, rx + ry) == Step(c, d, rx) + ry
  {
    if c != d {
      assert (rx + ry)[0] == rx[0];
      assert (rx + ry)[1..] == rx[1..] + ry;
    }
  }

  /** Splitting pieces glued with `d` gives back the pieces, when none of them holds `d`. */
  lemma {:induction false} SplitJoin(pieces: seq<string>, d: char)
    requires |pieces| >= 1
    requires forall k :: 0 <= k < |pieces| ==> d !in pieces[k]
    ensures Split(Join(pieces, d), d) == pieces
    decreases |pieces|
  {
    if |pieces| == 1 {
      SplitWithout(pieces[0], d);
    } else {
      SplitJoin(pieces[1..], d);
      SplitAround(pieces[0], d, Join(pieces[1..], d));
      SplitWithout(pieces[0], d);
      assert pieces == [pieces[0]] + pieces[1..];
    }
  }

  // ---------------------------------------------------------------------------
  // Concatenation, dropping empty pieces, removing a character

  /** All pieces concatenated, without separators. */
  function Flatten(pieces: seq<string>): string
    decreases |pieces|
  {
    if pieces == [] then "" else pieces[0] + Flatten(pieces[1..])
  }

  /** `.filter(|s| !s.is_empty())`: the non-empty pieces, order preserved. */
  function DropEmpty(pieces: seq<string>): (r: seq<string>)
    ensures forall k :: 0 <= k < |r| ==> r[k] != []
    ensures |r| <= |pieces|
    decreases |pieces|
  {
    if pieces == [] then []
    else (if pieces[0] == "" then [] else [pieces[0]]) + DropEmpty(pieces[1..])
  }

  /** The characters of `s` other than `d`, in order. */
  function Without(s: string, d: char): string
    decreases |s|
  {
    if s == [] then "" else (if s[0] == d then "" else [s[0]]) + Without(s[1..], d)
  }

  lemma {:induction false} FlattenSplit(s: string, d: char)
    ensures Flatten(Split(s, d)) == Without(s, d)
    decreases |s|
  {
    if s != [] {
      FlattenSplit(s[1..], d);
      var rest := Split(s[1..], d);
      if s[0] == d {
        assert ([""] + rest)[1..] == rest;
      } else {
        var r := [[s[0]] + rest[0]] + rest[1..];
        assert r[1..] == rest[1..];
        assert Flatten(rest) == rest[0] + Flatten(rest[1..]);
      }
    }
  }

  lemma {:induction false} FlattenDropEmpty(pieces: seq<string>)
    ensures Flatten(DropEmpty(pieces)) == Flatten(pieces)
    decreases |pieces|
  {
    if pieces != [] {
      FlattenDropEmpty(pieces[1..]);
      var rest := DropEmpty(pieces[1..]);
      if pieces[0] != "" {
        var r := [pieces[0]] + rest;
        assert r[1..] == rest;
      } else {
        assert DropEmpty(pieces) == rest;
        assert Flatten(pieces) == Flatten(pieces[1..]);
      }
    }
  }

  lemma {:induction false} DropEmptyKeeps(pieces: seq<string>)
    requires forall k :: 0 <= k < |pieces| ==> pieces[k] != []
    ensures DropEmpty(pieces) == pieces
    decreases |pieces|
  {
    if pieces != [] {
      DropEmptyKeeps(pieces[1..]);
      assert pieces == [pieces[0]] + pieces[1..];
    }
  }

  lemma {:induction false} DropEmptyAppend(a: seq<string>, b: seq<string>)
    ensures DropEmpty(a + b) == DropEmpty(a) + DropEmpty(b)
    decreases |a|
  {
    if a != [] {
      assert (a + b)[0] == a[0];
      assert (a + b)[1..] == a[1..] + b;
      DropEmptyAppend(a[1..], b);
    } else {
      assert a + b == b;
    }
  }

  /** Non-empty pieces flatten to the empty string only when there are none. */
  lemma FlattenNonEmpty(pieces: seq<string>)
    requires forall k :: 0 <= k < |pieces| ==> pieces[k] != []
    ensures Flatten(pieces) == [] <==> pieces == []
  {
    if pieces != [] {
      assert |Flatten(pieces)| >= |pieces[0]| > 0;
    }
  }

  /** Removing `d` leaves nothing exactly when every character is `d`. */
  lemma {:induction false} WithoutEmpty(s: string, d: char)
    ensures Without(s, d) == [] <==> forall k :: 0 <= k < |s| ==> s[k] == d
    decreases |s|
  {
    if s != [] {
      WithoutEmpty(s[1..], d);
      assert forall k :: 1 <= k < |s| ==> s[k] == s[1..][k - 1];
    }
  }

  // ---------------------------------------------------------------------------
  // Substrings and lines

  /** `s.contains(t)`: `t` occurs as a contiguous part of `s`. */
  predicate Contains(s: string, t: string)
    decreases |s|
  {
    t <= s || (s != [] && Contains(s[1..], t))
  }

  /** A pattern without `c` occurs in `a + [c] + b` exactly when it occurs in `a` or in `b`. */
  lemma {:induction false} ContainsAround(a: string, c: char, b: string, t: string)
    requires c !in t
    ensures Contains(a + [c] + b, t) <==> Contains(a, t) || Contains(b, t)
    decreases |a|
  {
    var s := a + [c] + b;
    if t == [] {
      assert t <= a && t <= s;
    } else if a == [] {
      assert s == [c] + b;
      assert s[1..] == b;
      var t0 := t[0];
      assert t <= s ==> t0 == c;
    } else {
      assert s[1..] == a[1..] + [c] + b;
      ContainsAround(a[1..], c, b, t);
      assert t <= s <==> t <= a by {
        if |t| <= |a| {
          assert s[..|t|] == a[..|t|];
        } else {
          assert s[|a|] == c;
          assert t <= s ==> c in t;
        }
      }
    }
  }

  /** `str::strip_suffix('\r')`, applied in `str::lines` to a line ended by `'\n'`. */
  function StripCr(line: string): string
  {
    if line != [] && line[|line| - 1] == '\r' then line[..|line| - 1] else line
  }

  /** `s.lines()`: the pieces between line feeds; a final empty piece (after a
      trailing line feed, or of the empty text) is not a line, and a carriage
      return is dropped only from a line that a line feed ends. */
  function Lines(s: string): (r: seq<string>)
    ensures forall k :: 0 <= k < |r| ==> '\n' !in r[k]
  {
    var pieces := Split(s, '\n');
    var n := |pieces| - 1;
    var ended := seq(n, k requires 0 <= k < n => StripCr(pieces[k]));
    assert forall k :: 0 <= k < n ==> '\n' !in pieces[k] && '\n' !in ended[k];
    if pieces[n] == "" then ended else ended + [pieces[n]]
  }

  /** Some element of `pieces` contains `t`. */
  predicate SomeContains(pieces: seq<string>, t: string)
  {
    exists k :: 0 <= k < |pieces| && Contains(pieces[k], t)
  }

  lemma {:induction false} ContainsJoin(pieces: seq<string>, d: char, t: string)
    requires d !in t
    ensures Contains(Join(pieces, d), t) <==> (t == [] || SomeContains(pieces, t))
    decreases |pieces|
  {
    if pieces == [] {
      assert Contains("", t) <==> t == [];
    } else if |pieces| == 1 {
      assert t == [] ==> t <= pieces[0];
    } else {
      ContainsJoin(pieces[1..], d, t);
      ContainsAround(pieces[0], d, Join(pieces[1..], d), t);
      assert forall k :: 1 <= k < |pieces| ==> pieces[k] == pieces[1..][k - 1];
      if SomeContains(pieces[1..], t) {
        var k :| 0 <= k < |pieces[1..]| && Contains(pieces[1..][k], t);
        assert Contains(pieces[k + 1], t);
      }
    }
  }

  lemma StripCrContains(line: string, t: string)
    requires '\r' !in t
    ensures Contains(StripCr(line), t) <==> Contains(line, t)
  {
    if line != [] && line[|line| - 1] == '\r' {
      var a := line[..|line| - 1];
      assert line == a + ['\r'] + [];
      ContainsAround(a, '\r', [], t);
      assert Contains([], t) ==> t <= a;
    }
  }

  /** The lines are the pieces between line feeds, each without a final carriage
      return, except that the last piece is kept as it is and only when it is not empty. */
  lemma LinesShape(s: string, pieces: seq<string>, lines: seq<string>)
    requires pieces == Split(s, '\n') && lines == Lines(s)
    ensures |lines| == |pieces| - 1 || |lines| == |pieces|
    ensures |lines| == |pieces| - 1 <==> pieces[|pieces| - 1] == ""
    ensures |lines| == |pieces| ==> lines[|pieces| - 1] == pieces[|pieces| - 1]
    ensures forall k :: 0 <= k < |pieces| - 1 ==> lines[k] == StripCr(pieces[k])
  {
    var n := |pieces| - 1;
    var ended := seq(n, k requires 0 <= k < n => StripCr(pieces[k]));
    assert lines == if pieces[n] == "" then ended else ended + [pieces[n]];
    forall k | 0 <= k < n
      ensures lines[k] == StripCr(pieces[k])
    {
      assert lines[k] == ended[k];
    }
  }

  /** A pattern that spans no line break occurs in a text exactly when it occurs in one of its lines. */
  lemma ContainsLines(s: string, t: string)
    requires t != [] && '\n' !in t && '\r' !in t
    ensures Contains(s, t) <==> SomeContains(Lines(s), t)
  {
    var pieces := Split(s, '\n');
    JoinSplit(s, '\n');
    ContainsJoin(pieces, '\n', t);
    SomeContainsLines(s, t);
  }

  lemma SomeContainsLines(s: string, t: string)
    requires t != [] && '\n' !in t && '\r' !in t
    ensures SomeContains(Split(s, '\n'), t) <==> SomeContains(Lines(s), t)
  {
    var pieces, lines := Split(s, '\n'), Lines(s);
    if SomeContains(pieces, t) {
      var k :| 0 <= k < |pieces| && Contains(pieces[k], t);
      PieceInLines(s, t, k);
    }
    if SomeContains(lines, t) {
      var k :| 0 <= k < |lines| && Contains(lines[k], t);
      LineInPieces(s, t, k);
    }
  }

  lemma PieceInLines(s: string, t: string, k: nat)
    requires t != [] && '\r' !in t
    requires k < |Split(s, '\n')| && Contains(Split(s, '\n')[k], t)
    ensures SomeContains(Lines(s), t)
  {
    var pieces, lines := Split(s, '\n'), Lines(s);
    var n := |pieces| - 1;
    LinesShape(s, pieces, lines);
    if k < n {
      StripCrContains(pieces[k], t);
      assert Contains(lines[k], t);
    } else {
      assert !Contains("", t);
      assert Contains(lines[n], t);
    }
  }

  lemma LineInPieces(s: string, t: string, k: nat)
    requires t != [] && '\r' !in t
    requires k < |Lines(s)| && Contains(Lines(s)[k], t)
    ensures SomeContains(Split(s, '\n'), t)
  {
    var pieces, lines := Split(s, '\n'), Lines(s);
    var n := |pieces| - 1;
    LinesShape(s, pieces, lines);
    if k < n {
      StripCrContains(pieces[k], t);
      assert Contains(pieces[k], t);
    } else {
      assert Contains(pieces[n], t);
    }
  }

  // ---------------------------------------------------------------------------
  // Whitespace: `char::is_whitespace`, `split_whitespace` and `trim`

  /** The Unicode `White_Space` characters, as Rust's `char::is_whitespace` lists them. */
  predicate IsWhitespace(c: char)
  {
    || ('\t' <= c <= '\r')
    || c == ' '
    || c == '\U{85}'
    || c == '\U{A0}'
    || c == '\U{1680}'
    || ('\U{2000}' <= c <= '\U{200A}')
    || c == '\U{2028}'
    || c == '\U{2029}'
    || c == '\U{202F}'
    || c == '\U{205F}'
    || c == '\U{3000}'
  }

  predicate NoWhitespace(s: string)
  {
    forall k :: 0 <= k < |s| ==> !IsWhitespace(s[k])
  }

  predicate AllWhitespace(s: string)
  {
    forall k :: 0 <= k < |s| ==> IsWhitespace(s[k])
  }

  /** The longest prefix of `s` without whitespace. */
  function Word(s: string): (r: string)
    ensures r <= s && NoWhitespace(r)
    ensures |r| < |s| ==> IsWhitespace(s[|r|])
    decreases |s|
  {
    if s == [] || IsWhitespace(s[0]) then "" else [s[0]] + Word(s[1..])
  }

  /** `s.split_whitespace()`: the maximal non-empty runs of non-whitespace characters. */
  function Tokens(s: string): (r: seq<string>)
    ensures forall k :: 0 <= k < |r| ==> r[k] != [] && NoWhitespace(r[k])
    decreases |s|
  {
    if s == [] then []
    else if IsWhitespace(s[0]) then Tokens(s[1..])
    else
      var w := Word(s);
      [w] + Tokens(s[|w|..])
  }

  /** Leading whitespace is skipped by `split_whitespace`. */
  lemma {:induction false} TokensSkip(ws: string, s: string)
    requires AllWhitespace(ws)
    ensures Tokens(ws + s) == Tokens(s)
    decreases |ws|
  {
    if ws != [] {
      assert (ws + s)[1..] == ws[1..] + s;
      TokensSkip(ws[1..], s);
    } else {
      assert ws + s == s;
    }
  }

  /** A word followed by whitespace is the first token. */
  lemma {:induction false} TokensWord(w: string, c: char, s: string)
    requires w != [] && NoWhitespace(w) && IsWhitespace(c)
    ensures Tokens(w + [c] + s) == [w] + Tokens(s)
  {
    var t := w + [c] + s;
    WordPrefix(w, c, s);
    assert t[|w|..] == [c] + s;
    TokensSkip([c], s);
  }

  lemma {:induction false} WordPrefix(w: string, c: char, s: string)
    requires NoWhitespace(w) && IsWhitespace(c)
    ensures Word(w + [c] + s) == w
    decreases |w|
  {
    var t := w + [c] + s;
    if w == [] {
      assert t[0] == c;
    } else {
      assert t[0] == w[0];
      assert t[1..] == w[1..] + [c] + s;
      WordPrefix(w[1..], c, s);
    }
  }

  /** A word ending the text is its last token. */
  lemma {:induction false} TokensLastWord(w: string)
    requires w != [] && NoWhitespace(w)
    ensures Tokens(w) == [w]
    decreases |w|
  {
    assert Word(w) == w by { WordAll(w); }
    assert w[|w|..] == [];
  }

  /** A word followed by a run of whitespace is the first token. */
  lemma TokensWordGap(w: string, gap: string, rest: string)
    requires w != [] && NoWhitespace(w) && gap != [] && AllWhitespace(gap)
    ensures Tokens(w + gap + rest) == [w] + Tokens(rest)
  {
    var after := gap[1..] + rest;
    assert w + gap + rest == w + [gap[0]] + after by {
      assert gap == [gap[0]] + gap[1..];
    }
    TokensWord(w, gap[0], after);
    TokensSkip(gap[1..], rest);
  }

  /** Three words separated by whitespace runs are its three tokens. */
  lemma TokensThree(w1: string, gap1: string, w2: string, gap2: string, w3: string)
    requires w1 != [] && NoWhitespace(w1) && w2 != [] && NoWhitespace(w2) && w3 != [] && NoWhitespace(w3)
    requires gap1 != [] && AllWhitespace(gap1) && gap2 != [] && AllWhitespace(gap2)
    ensures Tokens(w1 + gap1 + w2 + gap2 + w3) == [w1, w2, w3]
  {
    var tail := w2 + gap2 + w3;
    assert w1 + gap1 + w2 + gap2 + w3 == w1 + gap1 + tail;
    TokensWordGap(w1, gap1, tail);
    TokensWordGap(w2, gap2, w3);
    TokensLastWord(w3);
  }

  lemma {:induction false} WordAll(w: string)
    requires NoWhitespace(w)
    ensures Word(w) == w
    decreases |w|
  {
    if w != [] {
      WordAll(w[1..]);
      assert w == [w[0]] + w[1..];
    }
  }

  /** The length of the run of whitespace that starts `s`. */
  function LeadingSpace(s: string): (n: nat)
    ensures n <= |s|
    ensures forall k :: 0 <= k < n ==> IsWhitespace(s[k])
    ensures n < |s| ==> !IsWhitespace(s[n])
    decreases |s|
  {
    if s != [] && IsWhitespace(s[0]) then 1 + LeadingSpace(s[1..]) else 0
  }

  /** The length of the run of whitespace that ends `s`. */
  function TrailingSpace(s: string): (n: nat)
    ensures n <= |s|
    ensures forall k :: |s| - n <= k < |s| ==> IsWhitespace(s[k])
    ensures n < |s| ==> !IsWhitespace(s[|s| - n - 1])
    decreases |s|
  {
    if s != [] && IsWhitespace(s[|s| - 1]) then 1 + TrailingSpace(s[..|s| - 1]) else 0
  }

  /** `r` is the part of `s` from `i` on that lies between a leading and a trailing
      run of whitespace, and it neither starts nor ends with whitespace. */
  predicate TrimmedFrom(s: string, i: nat, r: string)
  {
    && (r == [] || (!IsWhitespace(r[0]) && !IsWhitespace(r[|r| - 1])))
    && i + |r| <= |s| && r == s[i..i + |r|] && AllWhitespace(s[..i]) && AllWhitespace(s[i + |r|..])
  }

  /** `s.trim()`: `s` without its leading and trailing whitespace. */
  function Trim(s: string): (r: string)
    ensures TrimmedFrom(s, LeadingSpace(s), r)
  {
    var i := LeadingSpace(s);
    var t := s[i..];
    var j := TrailingSpace(t);
    TrimParts(s, i, t, j);
    t[..|t| - j]
  }

  lemma TrimParts(s: string, i: nat, t: string, j: nat)
    requires i <= |s| && t == s[i..] && j <= |t|
    requires forall k :: 0 <= k < i ==> IsWhitespace(s[k])
    requires i < |s| ==> !IsWhitespace(s[i])
    requires forall k :: |t| - j <= k < |t| ==> IsWhitespace(t[k])
    requires j < |t| ==> !IsWhitespace(t[|t| - j - 1])
    ensures TrimmedFrom(s, i, t[..|t| - j])
  {
    var r := t[..|t| - j];
    assert r == s[i..i + |r|];
    assert AllWhitespace(s[..i]) by {
      forall k | 0 <= k < i ensures IsWhitespace(s[..i][k]) {
        assert s[..i][k] == s[k];
      }
    }
    var tail := s[i + |r|..];
    assert AllWhitespace(tail) by {
      forall k | 0 <= k < |tail| ensures IsWhitespace(tail[k]) {
        assert tail[k] == t[|t| - j + k];
      }
    }
    if r != [] {
      assert r[0] == s[i];
      assert r[|r| - 1] == t[|t| - j - 1];
    }
  }

  // ---------------------------------------------------------------------------
  // Unsigned integers: `str::parse::<u32>()` and `str::parse::<u64>()`

  const U32_LIMIT: nat := 0x1_0000_0000
  const U64_LIMIT: nat := 0x1_0000_0000_0000_0000

  predicate IsDigit(c: char) { '0' <= c <= '9' }

  predicate AllDigits(s: string)
  {
    forall k :: 0 <= k < |s| ==> IsDigit(s[k])
  }

  /** The value of a string of decimal digits, most significant first. */
  function DigitsValue(ds: string): nat
    requires AllDigits(ds)
    decreases |ds|
  {
    if ds == [] then 0
    else DigitsValue(ds[..|ds| - 1]) * 10 + (ds[|ds| - 1] - '0') as nat
  }

  /** `FromStr` for an unsigned integer type whose values are below `limit`: one
      optional leading `+`, then at least one ASCII digit and nothing else; a value
      that does not fit is an error. */
  function ParseUnsigned(s: string, limit: nat): (r: Option<nat>)
    ensures r.Some? ==> r.value < limit
    ensures r.Some? ==> s != [] && s != "+"
    ensures r.Some? ==> forall k :: 0 <= k < |s| ==> IsDigit(s[k]) || (k == 0 && s[k] == '+')
  {
    if s == [] then None
    else
      var ds := if s[0] == '+' then s[1..] else s;
      if ds == [] || !AllDigits(ds) then None
      else if DigitsValue(ds) < limit then Some(DigitsValue(ds))
      else None
  }

  function ParseU32(s: string): Option<nat> { ParseUnsigned(s, U32_LIMIT) }

  function ParseU64(s: string): Option<nat> { ParseUnsigned(s, U64_LIMIT) }

  /** The shortest decimal spelling of `n`, as `n.to_string()` writes it. */
  function Decimal(n: nat): (r: string)
    ensures r != [] && AllDigits(r)
    decreases n
  {
    (if n < 10 then "" else Decimal(n / 10)) + [('0' as int + n % 10) as char]
  }

  lemma {:induction false} DecimalValue(n: nat)
    ensures DigitsValue(Decimal(n)) == n
    decreases n
  {
    var r := Decimal(n);
    var prefix := if n < 10 then "" else Decimal(n / 10);
    assert r[..|r| - 1] == prefix;
    if n >= 10 {
      DecimalValue(n / 10);
    }
  }

  /** Parsing the decimal spelling of a value that fits gives the value back. */
  lemma ParseDecimal(n: nat, limit: nat)
    requires n < limit
    ensures ParseUnsigned(Decimal(n), limit) == Some(n)
  {
    DecimalValue(n);
  }

  /** A leading minus sign is never accepted by an unsigned parser. */
  lemma ParseRejectsMinus(s: string, limit: nat)
    requires s != [] && s[0] == '-'
    ensures ParseUnsigned(s, limit) == None
  {
  }

  /** What a digit string, bare or after a sign, parses to: its value when that fits
      below `limit`, and an error otherwise; a minus sign is always an error. */
  lemma ParseDigits(ds: string, limit: nat)
    requires ds != [] && AllDigits(ds)
    ensures ParseUnsigned(ds, limit) == if DigitsValue(ds) < limit then Some(DigitsValue(ds)) else None
    ensures ParseUnsigned("+" + ds, limit) == ParseUnsigned(ds, limit)
    ensures ParseUnsigned("-" + ds, limit) == None
  {
    assert ("+" + ds)[1..] == ds;
    ParseRejectsMinus("-" + ds, limit);
  }

  /** A value that does not fit is an error, never a wrapped-around value. */
  lemma ParseOverflow(n: nat, limit: nat)
    requires n >= limit
    ensures ParseUnsigned(Decimal(n), limit) == None
    ensures ParseUnsigned("+" + Decimal(n), limit) == None
  {
    DecimalValue(n);
    ParseDigits(Decimal(n), limit);
  }

  /** A leading zero does not change the value of a digit string. */
  lemma {:induction false} LeadingZeroValue(ds: string)
    requires AllDigits(ds)
    ensures AllDigits("0" + ds) && DigitsValue("0" + ds) == DigitsValue(ds)
    decreases |ds|
  {
    var z := "0" + ds;
    assert AllDigits(z) by {
      forall k | 0 <= k < |z| ensures IsDigit(z[k]) {
        if k > 0 { assert z[k] == ds[k - 1]; }
      }
    }
    if ds != [] {
      var init := ds[..|ds| - 1];
      assert z[..|z| - 1] == "0" + init;
      assert z[|z| - 1] == ds[|ds| - 1];
      LeadingZeroValue(init);
    }
  }

  /** A leading zero does not change what a digit string parses to. */
  lemma ParseLeadingZero(ds: string, limit: nat)
    requires ds != [] && AllDigits(ds)
    ensures ParseUnsigned("0" + ds, limit) == ParseUnsigned(ds, limit)
  {
    LeadingZeroValue(ds);
    ParseDigits("0" + ds, limit);
    ParseDigits(ds, limit);
  }

  /** The value of a single digit. */
  lemma DigitsOne(a: char)
    requires IsDigit(a)
    ensures DigitsValue([a]) == (a - '0') as nat
  {
    assert [a][..0] == "";
  }

  /** The value of two digits. */
  lemma DigitsTwo(a: char, b: char)
    requires IsDigit(a) && IsDigit(b)
    ensures DigitsValue([a, b]) == (a - '0') as nat * 10 + (b - '0') as nat
  {
    assert [a, b][..1] == [a];
    DigitsOne(a);
  }

  /** A one-digit number parses to its digit's value. */
  lemma ParseOneDigit(a: char, limit: nat)
    requires IsDigit(a) && 10 <= limit
    ensures ParseUnsigned([a], limit) == Some((a - '0') as nat)
  {
    DigitsOne(a);
    ParseDigits([a], limit);
  }

  /** A two-digit number parses to its value. */
  lemma ParseTwoDigits(a: char, b: char, limit: nat)
    requires IsDigit(a) && IsDigit(b) && 100 <= limit
    ensures ParseUnsigned([a, b], limit) == Some((a - '0') as nat * 10 + (b - '0') as nat)
  {
    DigitsTwo(a, b);
    ParseDigits([a, b], limit);
  }

  /** `"012"` and `"+12"` are both the number 12, as `"12"` is. */
  lemma ParseTwelve()
    ensures ParseU32("12") == Some(12)
    ensures ParseU32("012") == Some(12)
    ensures ParseU32("+12") == Some(12)
  {
    DigitsTwo('1', '2');
    ParseLeadingZero("12", U32_LIMIT);
    assert "0" + "12" == "012";
    ParseDigits("12", U32_LIMIT);
    assert "+" + "12" == "+12";
  }
}
