/**
 * The string operations the index relies on, over ASCII: `str.lower()`,
 * `str.strip()` and `re.split(r"\W+", s)`.
 */
module Text {

  /** A character matched by `\w`: a letter, a digit or the underscore. */
  predicate IsWordChar(c: char) {
    ('a' <= c <= 'z') || ('A' <= c <= 'Z') || ('0' <= c <= '9') || c == '_'
  }

  predicate IsUpper(c: char) {
    'A' <= c <= 'Z'
  }

  /** A character that `str.strip()` removes. */
  predicate IsSpace(c: char) {
    // space, and the control characters 9 to 13 and 28 to 31
    c == ' ' || (9 <= c as int <= 13) || (28 <= c as int <= 31)
  }

  predicate AllWord(s: string) {
    forall i :: 0 <= i < |s| ==> IsWordChar(s[i])
  }

  function LowerChar(c: char): (d: char)
    ensures !IsUpper(d)
    ensures IsUpper(c) ==> d as int == c as int + 32
    ensures !IsUpper(c) ==> d == c
  {
    if IsUpper(c) then (c as int + 32) as char else c
  }

  /** `s.lower()`: upper-case letters become lower-case; every other character stays. */
  function Lower(s: string): (r: string)
    ensures |r| == |s|
    ensures forall i :: 0 <= i < |s| ==> r[i] == LowerChar(s[i])
  {
    seq(|s|, i requires 0 <= i < |s| => LowerChar(s[i]))
  }

  /** The number of leading characters `strip()` removes. */
  function LeadingSpaces(s: string): (n: nat)
    ensures n <= |s|
    ensures forall k :: 0 <= k < n ==> IsSpace(s[k])
    ensures n < |s| ==> !IsSpace(s[n])
  {
    if s != [] && IsSpace(s[0]) then 1 + LeadingSpaces(s[1..]) else 0
  }

  /** The number of trailing characters `strip()` removes. */
  function TrailingSpaces(s: string): (n: nat)
    ensures n <= |s|
    ensures forall k :: |s| - n <= k < |s| ==> IsSpace(s[k])
    ensures n < |s| ==> !IsSpace(s[|s| - 1 - n])
  {
    if s != [] && IsSpace(s[|s| - 1]) then 1 + TrailingSpaces(s[..|s| - 1]) else 0
  }

  /** Neither end of `s` is whitespace. */
  predicate NoOuterSpace(s: string) {
    s != [] ==> !IsSpace(s[0]) && !IsSpace(s[|s| - 1])
  }

  /**
   * `s.strip()`: the slice of `s` left after removing every leading and
   * trailing whitespace character; it neither begins nor ends with one.
   */

  function Strip(s: string): (r: string)
    ensures LeadingSpaces(s) + |r| <= |s|
    ensures r == s[LeadingSpaces(s)..LeadingSpaces(s) + |r|]
    ensures forall k :: LeadingSpaces(s) + |r| <= k < |s| ==> IsSpace(s[k])
    ensures NoOuterSpace(r)
    ensures r == [] <==> forall k :: 0 <= k < |s| ==> IsSpace(s[k])
  {
    var rest := s[LeadingSpaces(s)..];
    rest[..|rest| - TrailingSpaces(rest)]
  }

  /** The word characters of `s`, in order. */
  function WordChars(s: string): string {
    if s == [] then [] else (if IsWordChar(s[0]) then [s[0]] else []) + WordChars(s[1..])
  }

  /** The concatenation of a list of strings, `"".join(pieces)`. */
  function Concat(pieces: seq<string>): string {
    if pieces == [] then [] else pieces[0] + Concat(pieces[1..])
  }

  /** The length of the run of non-word characters that `s` begins with. */
  function SeparatorRun(s: string): (n: nat)
    ensures n <= |s|
    ensures forall k :: 0 <= k < n ==> !IsWordChar(s[k])
    ensures n < |s| ==> IsWordChar(s[n])
  {
    if s != [] && !IsWordChar(s[0]) then 1 + SeparatorRun(s[1..]) else 0
  }

  /** Dropping a leading run of separators keeps the word characters. */
  lemma {:induction false} SeparatorRunWordChars(s: string)
    ensures WordChars(s[SeparatorRun(s)..]) == WordChars(s)
  {
    if s != [] && !IsWordChar(s[0]) {
      SeparatorRunWordChars(s[1..]);
      assert s[1..][SeparatorRun(s[1..])..] == s[SeparatorRun(s)..];
    }
  }

  /**
   * `re.split(r"\W+", s)`: the pieces of `s` between maximal runs of
   * non-word characters.  There is one piece more than there are runs, so a
   * leading or trailing run produces an empty first or last piece, and the
   * empty string splits into `[""]`.
   */
  function Split(s: string): (r: seq<string>)
    decreases |s|
    ensures |r| >= 1
  {
    if s == [] then
      [[]]
    else if IsWordChar(s[0]) then
      var t := Split(s[1..]);
      [[s[0]] + t[0]] + t[1..]
    else
      [[]] + Split(s[SeparatorRun(s)..])
  }

  /**
   * Every piece is made of word characters only, no piece but the first and
   * the last is empty, and the first is empty exactly when the text is empty
   * or begins with a separator.
   */
  lemma {:induction false} SplitPieces(s: string)
    decreases |s|
    ensures var r := Split(s);
      && (forall i :: 0 <= i < |r| ==> AllWord(r[i]))
      && (forall i :: 0 < i < |r| - 1 ==> r[i] != [])
      && (r[0] == [] <==> s == [] || !IsWordChar(s[0]))
  {
    if s != [] {
      var r := Split(s);
      if IsWordChar(s[0]) {
        var t := Split(s[1..]);
        SplitPieces(s[1..]);
        assert r[1..] == t[1..];
        assert AllWord(r[0]) by {
          assert forall k :: 1 <= k < |r[0]| ==> r[0][k] == t[0][k - 1];
        }
      } else {
        var d := s[SeparatorRun(s)..];
        SplitPieces(d);
        assert r[1..] == Split(d);
      }
    }
  }

  /** A text splits into a single piece exactly when it holds no separator at all. */
  lemma {:induction false} SplitSingle(s: string)
    decreases |s|
    ensures |Split(s)| == 1 <==> AllWord(s)
  {
    if s != [] {
      if IsWordChar(s[0]) {
        SplitSingle(s[1..]);
        assert AllWord(s) <==> AllWord(s[1..]) by {
          assert forall k :: 1 <= k < |s| ==> s[k] == s[1..][k - 1];
        }
      } else {
        assert !AllWord(s);
      }
    }
  }

  /** The last piece is empty exactly when the text is empty or ends with a separator. */
  lemma {:induction false} SplitLast(s: string)
    decreases |s|
    ensures var r := Split(s); r[|r| - 1] == [] <==> s == [] || !IsWordChar(s[|s| - 1])
  {
    if s != [] {
      if IsWordChar(s[0]) {
        var t := Split(s[1..]);
        if |t| == 1 {
          SplitSingle(s[1..]);
          if |s| > 1 {
            assert s[|s| - 1] == s[1..][|s| - 2];
          }
        } else {
          SplitLast(s[1..]);
          assert s[1..] != [];
          assert s[|s| - 1] == s[1..][|s| - 2];
        }
      } else {
        var d := s[SeparatorRun(s)..];
        SplitLast(d);
        if d != [] {
          assert d[|d| - 1] == s[|s| - 1];
        }
      }
    }
  }

  /** Splitting loses exactly the separators: the pieces hold the text's word characters in order. */
  lemma {:induction false} SplitConcat(s: string)
    decreases |s|
    ensures Concat(Split(s)) == WordChars(s)
  {
    if s != [] {
      if IsWordChar(s[0]) {
        var t := Split(s[1..]);
        SplitConcat(s[1..]);
        var r := [[s[0]] + t[0]] + t[1..];
        assert r[1..] == t[1..];
        calc {
          Concat(r);
          ([s[0]] + t[0]) + Concat(t[1..]);
          [s[0]] + (t[0] + Concat(t[1..]));
          [s[0]] + Concat(t);
        }
      } else {
        var d := s[SeparatorRun(s)..];
        var t := Split(d);
        SplitConcat(d);
        SeparatorRunWordChars(s);
        assert ([[]] + t)[1..] == t;
      }
    }
  }

  /** A non-empty run of characters none of which is a word character. */
  predicate IsSeparator(s: string) {
    s != [] && forall k :: 0 <= k < |s| ==> !IsWordChar(s[k])
  }

  /** The maximal runs of non-word characters in `s`, in order: what `re.split(r"\W+", s)` splits on. */
  function Separators(s: string): seq<string>
    decreases |s|
  {
    if s == [] then []
    else if IsWordChar(s[0]) then Separators(s[1..])
    else [s[..SeparatorRun(s)]] + Separators(s[SeparatorRun(s)..])
  }

  /** `pieces[0] + seps[0] + pieces[1] + ... + pieces[|seps|]`. */
  function Join(pieces: seq<string>, seps: seq<string>): string
    requires |pieces| == |seps| + 1
    decreases |seps|
  {
    if seps == [] then pieces[0] else pieces[0] + (seps[0] + Join(pieces[1..], seps[1..]))
  }

  lemma AppendAssoc(a: string, b: string, x: string)
    ensures (a + b) + x == a + (b + x)
  {
  }

  /** Putting a character in front of the first piece puts it in front of the joined text. */
  lemma JoinConsFirst(c: char, t: seq<string>, seps: seq<string>)
    requires |t| == |seps| + 1
    ensures Join([[c] + t[0]] + t[1..], seps) == [c] + Join(t, seps)
  {
    var r := [[c] + t[0]] + t[1..];
    assert r[0] == [c] + t[0] && r[1..] == t[1..];
    if seps != [] {
      var x := seps[0] + Join(t[1..], seps[1..]);
      assert Join(r, seps) == ([c] + t[0]) + x;
      AppendAssoc([c], t[0], x);
    }
  }

  /** There is one piece more than there are separator runs, and every run is a separator. */
  lemma {:induction false} SeparatorsShape(s: string)
    decreases |s|
    ensures |Split(s)| == |Separators(s)| + 1
    ensures forall i :: 0 <= i < |Separators(s)| ==> IsSeparator(Separators(s)[i])
  {
    if s != [] {
      if IsWordChar(s[0]) {
        SeparatorsShape(s[1..]);
      } else {
        var n := SeparatorRun(s);
        var d := s[n..];
        SeparatorsShape(d);
        var seps := [s[..n]] + Separators(d);
        assert IsSeparator(s[..n]);
        assert forall i :: 1 <= i < |seps| ==> seps[i] == Separators(d)[i - 1];
      }
    }
  }

  /**
   * `re.split(r"\W+", s)` cuts the text exactly at its separator runs: the
   * text is the pieces joined by the runs.  With the pieces made of word
   * characters only (`SplitPieces`), this fixes where every piece begins and
   * ends.
   */
  lemma {:induction false} SplitJoin(s: string)
    decreases |s|
    ensures |Split(s)| == |Separators(s)| + 1
    ensures forall i :: 0 <= i < |Separators(s)| ==> IsSeparator(Separators(s)[i])
    ensures Join(Split(s), Separators(s)) == s
  {
    SeparatorsShape(s);
    if s != [] {
      if IsWordChar(s[0]) {
        var t := Split(s[1..]);
        SplitJoin(s[1..]);
        JoinConsFirst(s[0], t, Separators(s[1..]));
        assert [s[0]] + s[1..] == s;
      } else {
        var n := SeparatorRun(s);
        var d := s[n..];
        SplitJoin(d);
        var r := [[]] + Split(d);
        var seps := [s[..n]] + Separators(d);
        assert r[1..] == Split(d) && seps[1..] == Separators(d);
        assert Join(r, seps) == [] + (s[..n] + Join(Split(d), Separators(d)));
        assert s[..n] + d == s;
      }
    }
  }

  /** A separator run followed by nothing or by a word character is a maximal run. */
  lemma {:induction false} SeparatorRunOf(sep: string, rest: string)
    requires IsSeparator(sep)
    requires rest == [] || IsWordChar(rest[0])
    ensures SeparatorRun(sep + rest) == |sep|
    decreases |sep|
  {
    var s := sep + rest;
    assert s[1..] == sep[1..] + rest;
    if |sep| > 1 {
      SeparatorRunOf(sep[1..], rest);
    }
  }

  /** A join whose first piece is word characters, and is non-empty unless it is the only piece, starts with a word character. */
  lemma JoinHead(pieces: seq<string>, seps: seq<string>)
    requires |pieces| == |seps| + 1
    requires AllWord(pieces[0])
    requires seps != [] ==> pieces[0] != []
    ensures Join(pieces, seps) == [] || IsWordChar(Join(pieces, seps)[0])
  {
    if seps != [] {
      assert Join(pieces, seps)[0] == pieces[0][0];
    }
  }

  /** The conditions under which `Join(pieces, seps)` is a text that `Split` breaks back into `pieces`. */
  predicate Splittable(pieces: seq<string>, seps: seq<string>) {
    && |pieces| == |seps| + 1
    && (forall i :: 0 <= i < |pieces| ==> AllWord(pieces[i]))
    && (forall i :: 0 < i < |pieces| - 1 ==> pieces[i] != [])
    && (forall i :: 0 <= i < |seps| ==> IsSeparator(seps[i]))
  }

  /**
   * The pieces and runs of `re.split(r"\W+", s)` are the only ones possible:
   * any way of writing the text as word-character pieces, none empty except
   * the first and the last, joined by non-empty separator runs, is `Split(s)`.
   */
  lemma {:induction false} SplitUnique(s: string, pieces: seq<string>, seps: seq<string>)
    requires |pieces| == |seps| + 1
    requires forall i :: 0 <= i < |pieces| ==> AllWord(pieces[i])
    requires forall i :: 0 < i < |pieces| - 1 ==> pieces[i] != []
    requires forall i :: 0 <= i < |seps| ==> IsSeparator(seps[i])
    requires Join(pieces, seps) == s
    ensures Split(s) == pieces
    decreases |s|, 1
  {
    if pieces[0] != [] {
      SplitUniqueWord(s, pieces, seps);
    } else if seps != [] {
      SplitUniqueSeparator(s, pieces, seps);
    }
  }

  /** The case where the text starts with a word character. */
  lemma {:induction false} SplitUniqueWord(s: string, pieces: seq<string>, seps: seq<string>)
    requires Splittable(pieces, seps) && pieces[0] != []
    requires Join(pieces, seps) == s
    ensures Split(s) == pieces
    decreases |s|, 0
  {
    var p0 := pieces[0];
    var pieces' := [p0[1..]] + pieces[1..];
    assert pieces'[1..] == pieces[1..];
    assert [p0[0]] + p0[1..] == p0;
    assert [[p0[0]] + pieces'[0]] + pieces'[1..] == pieces;
    JoinConsFirst(p0[0], pieces', seps);
    assert AllWord(pieces'[0]) by {
      forall k | 0 <= k < |pieces'[0]| ensures IsWordChar(pieces'[0][k]) {
        assert pieces'[0][k] == p0[k + 1];
      }
    }
    assert forall i :: 0 < i < |pieces'| ==> pieces'[i] == pieces[i];
    assert s[0] == p0[0] && s[1..] == Join(pieces', seps);
    SplitUnique(s[1..], pieces', seps);
  }

  /** The case where the text starts with a separator. */
  lemma {:induction false} SplitUniqueSeparator(s: string, pieces: seq<string>, seps: seq<string>)
    requires Splittable(pieces, seps) && pieces[0] == [] && seps != []
    requires Join(pieces, seps) == s
    ensures Split(s) == pieces
    decreases |s|, 0
  {
    var rest := Join(pieces[1..], seps[1..]);
    assert s == seps[0] + rest;
    JoinHead(pieces[1..], seps[1..]);
    SeparatorRunOf(seps[0], rest);
    assert s[SeparatorRun(s)..] == rest;
    assert forall i :: 0 <= i < |pieces[1..]| ==> pieces[1..][i] == pieces[i + 1];
    assert forall i :: 0 <= i < |seps[1..]| ==> seps[1..][i] == seps[i + 1];
    SplitUnique(rest, pieces[1..], seps[1..]);
    assert s[0] == seps[0][0];
    assert [[]] + pieces[1..] == pieces;
  }
}
