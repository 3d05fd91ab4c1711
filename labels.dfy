/**
 * Label cleanup of the recognizer's dataset loader: the space-collapsing
 * substitution applied to every label, Python's `str.strip()` and
 * `str.split(' ')`, and the vocabulary of tokens those give.
 */
module Labels {

  // ---------------------------------------------------------------------
  // re.sub(' +', ' ', txt)
  // ---------------------------------------------------------------------

  /** No two consecutive characters of `s` are both spaces. */
  ghost predicate NoDoubleSpace(s: string)
  {
    forall i, j :: 0 <= i && j == i + 1 && j < |s| ==> !(s[i] == ' ' && s[j] == ' ')
  }

  /** The characters of `s` other than spaces, in order. */
  function NonSpaces(s: string): string
  {
    if s == [] then []
    else (if s[0] == ' ' then [] else [s[0]]) + NonSpaces(s[1..])
  }

  /**
   * Every maximal run of spaces in `s` replaced by a single space, as the
   * regular-expression substitution of ' +' by ' ' does.
   */
  function CollapseSpaces(s: string): (r: string)
    ensures NoDoubleSpace(r)
    ensures NonSpaces(r) == NonSpaces(s)
    ensures |r| <= |s|
    ensures |s| > 0 ==> |r| > 0 && r[0] == s[0] && r[|r| - 1] == s[|s| - 1]
  {
    if |s| <= 1 then s
    else if s[0] == ' ' && s[1] == ' ' then CollapseSpaces(s[1..])
    else
      var rest := CollapseSpaces(s[1..]);
      assert ([s[0]] + rest)[1..] == rest;
      [s[0]] + rest
  }

  /** A label is left unchanged by the substitution exactly when it has no double space. */
  lemma {:induction false} CollapseFixpoint(s: string)
    ensures CollapseSpaces(s) == s <==> NoDoubleSpace(s)
  {
    if |s| > 1 && NoDoubleSpace(s) {
      assert NoDoubleSpace(s[1..]);
      CollapseFixpoint(s[1..]);
    }
  }

  /** Applying the substitution twice is the same as applying it once. */
  lemma {:induction false} CollapseIdempotent(s: string)
    ensures CollapseSpaces(CollapseSpaces(s)) == CollapseSpaces(s)
  {
    CollapseFixpoint(CollapseSpaces(s));
  }

  // ---------------------------------------------------------------------
  // str.strip()
  // ---------------------------------------------------------------------

  /**
   * The characters Python's `str.isspace` accepts: the ASCII controls
   * 9-13 and 28-31, the space, and the Unicode space separators, line and
   * paragraph separators, and the control U+0085 (NEXT LINE).
   */
  const Whitespace: set<char> := {
    '\U{0009}', '\U{000A}', '\U{000B}', '\U{000C}', '\U{000D}', '\U{001C}', '\U{001D}',
    '\U{001E}', '\U{001F}', ' ', '\U{0085}', '\U{00A0}', '\U{1680}', '\U{2000}',
    '\U{2001}', '\U{2002}', '\U{2003}', '\U{2004}', '\U{2005}', '\U{2006}', '\U{2007}',
    '\U{2008}', '\U{2009}', '\U{200A}', '\U{2028}', '\U{2029}', '\U{202F}', '\U{205F}',
    '\U{3000}'
  }

  predicate IsWhitespace(c: char)
  {
    c in Whitespace
  }

  /** Every character of `s` is whitespace (this includes the empty string). */
  predicate Blank(s: string)
  {
    forall i :: 0 <= i < |s| ==> IsWhitespace(s[i])
  }

  /** `s` without its leading whitespace. */
  function TrimStart(s: string): (r: string)
    ensures |r| <= |s| && r == s[|s| - |r|..]
    ensures Blank(s[..|s| - |r|])
    ensures r == [] || !IsWhitespace(r[0])
  {
    if s != [] && IsWhitespace(s[0]) then
      var r := TrimStart(s[1..]);
      BlankHead(s, r);
      r
    else s
  }

  /** Dropping one more leading whitespace character keeps the facts `TrimStart` promises. */
  lemma BlankHead(s: string, r: string)
    requires s != [] && IsWhitespace(s[0])
    requires |r| <= |s| - 1 && r == s[1..][|s| - 1 - |r|..] && Blank(s[1..][..|s| - 1 - |r|])
    ensures r == s[|s| - |r|..] && Blank(s[..|s| - |r|])
  {
    var k := |s| - |r|;
    assert s[..k] == [s[0]] + s[1..][..k - 1];
    BlankAppend([s[0]], s[1..][..k - 1]);
  }

  /** `s` without its trailing whitespace. */
  function TrimEnd(s: string): (r: string)
    ensures |r| <= |s| && r == s[..|r|]
    ensures Blank(s[|r|..])
    ensures r == [] || !IsWhitespace(r[|r| - 1])
  {
    if s != [] && IsWhitespace(s[|s| - 1]) then
      var r := TrimEnd(s[..|s| - 1]);
      BlankTail(s, r);
      r
    else s
  }

  /** Dropping one more trailing whitespace character keeps the facts `TrimEnd` promises. */
  lemma BlankTail(s: string, r: string)
    requires s != [] && IsWhitespace(s[|s| - 1])
    requires |r| <= |s| - 1 && r == s[..|s| - 1][..|r|] && Blank(s[..|s| - 1][|r|..])
    ensures r == s[..|r|] && Blank(s[|r|..])
  {
    assert s[|r|..] == s[..|s| - 1][|r|..] + [s[|s| - 1]];
    BlankAppend(s[..|s| - 1][|r|..], [s[|s| - 1]]);
  }

  /** Python's `str.strip()` with no argument. */
  function Strip(s: string): (r: string)
    ensures r == [] <==> Blank(s)
    ensures r != [] ==> !IsWhitespace(r[0]) && !IsWhitespace(r[|r| - 1])
    ensures NoDoubleSpace(s) ==> NoDoubleSpace(r)
  {
    var t := TrimStart(s);
    var r := TrimEnd(t);
    StripSlice(s, |s| - |t|, t, r);
    r
  }

  /** A concatenation is blank exactly when both parts are. */
  lemma BlankAppend(a: string, b: string)
    ensures Blank(a + b) <==> Blank(a) && Blank(b)
  {
    if Blank(a) && Blank(b) {
      forall i | 0 <= i < |a + b| ensures IsWhitespace((a + b)[i]) {
        if i >= |a| { assert (a + b)[i] == b[i - |a|]; }
      }
    }
    if Blank(a + b) {
      forall i | 0 <= i < |a| ensures IsWhitespace(a[i]) {
        assert (a + b)[i] == a[i];
      }
      forall i | 0 <= i < |b| ensures IsWhitespace(b[i]) {
        assert (a + b)[|a| + i] == b[i];
      }
    }
  }

  /**
   * What trimming blank ends off `s` keeps: `t` is `s` without a blank
   * prefix of length `a` and starts with a non-blank, `r` is `t` without a
   * blank suffix.
   */
  lemma StripSlice(s: string, a: nat, t: string, r: string)
    requires a <= |s| && t == s[a..] && Blank(s[..a])
    requires t == [] || !IsWhitespace(t[0])
    requires |r| <= |t| && r == t[..|r|] && Blank(t[|r|..])
    ensures r == [] <==> Blank(s)
    ensures NoDoubleSpace(s) ==> NoDoubleSpace(r)
  {
    if r == [] {
      assert t[|r|..] == t;
      assert t == [];
      assert s[..a] == s;
    }
    if NoDoubleSpace(s) {
      forall i, j | 0 <= i && j == i + 1 && j < |r| ensures !(r[i] == ' ' && r[j] == ' ') {
        assert r[i] == s[a + i] && r[j] == s[a + j];
      }
    }
  }

  // ---------------------------------------------------------------------
  // str.split(' ')
  // ---------------------------------------------------------------------

  /**
   * Python's `s.split(' ')` with an explicit separator: every single space
   * separates two tokens, so consecutive, leading or trailing spaces give
   * empty tokens, and the empty string gives one empty token.
   */
  function Split(s: string): (r: seq<string>)
    ensures |r| >= 1
    ensures forall i :: 0 <= i < |r| ==> ' ' !in r[i]
  {
    if s == [] then [[]]
    else
      var rest := Split(s[1..]);
      if s[0] == ' ' then [[]] + rest
      else [[s[0]] + rest[0]] + rest[1..]
  }

  /** The tokens glued back together with one space between neighbours: `' '.join(ts)`. */
  function Join(ts: seq<string>): string
  {
    if ts == [] then []
    else if |ts| == 1 then ts[0]
    else ts[0] + [' '] + Join(ts[1..])
  }

  /** Joining the tokens of a split gives back the string. */
  lemma {:induction false} JoinSplit(s: string)
    ensures Join(Split(s)) == s
  {
    if s != [] {
      var rest := Split(s[1..]);
      JoinSplit(s[1..]);
      if s[0] == ' ' {
        assert ([[]] + rest)[1..] == rest;
      } else if |rest| == 1 {
      } else {
        assert Join(rest) == rest[0] + [' '] + Join(rest[1..]);
        var r := [[s[0]] + rest[0]] + rest[1..];
        assert r[1..] == rest[1..];
      }
    }
  }

  /** Splitting a space-free prefix `t` in front of `s` only extends the first token. */
  lemma {:induction false} SplitPrefix(t: string, s: string)
    requires ' ' !in t
    ensures Split(t + s) == [t + Split(s)[0]] + Split(s)[1..]
  {
    if t != [] {
      assert (t + s)[1..] == t[1..] + s;
      SplitPrefix(t[1..], s);
      assert [t[0]] + (t[1..] + Split(s)[0]) == t + Split(s)[0];
    } else {
      var ss := Split(s);
      assert t + s == s;
      assert t + ss[0] == ss[0];
      assert ss == [ss[0]] + ss[1..];
    }
  }

  /** Splitting a join of space-free tokens gives back the tokens. */
  lemma {:induction false} SplitJoin(ts: seq<string>)
    requires |ts| >= 1
    requires forall i :: 0 <= i < |ts| ==> ' ' !in ts[i]
    ensures Split(Join(ts)) == ts
  {
    if |ts| == 1 {
      SplitPrefix(ts[0], []);
      assert ts[0] + [] == ts[0];
    } else {
      var tail := [' '] + Join(ts[1..]);
      SplitJoin(ts[1..]);
      assert tail[1..] == Join(ts[1..]);
      assert Split(tail) == [[]] + ts[1..];
      assert Join(ts) == ts[0] + tail;
      SplitPrefix(ts[0], tail);
      assert ts[0] + [] == ts[0];
    }
  }

  /**
   * A non-empty string without double spaces that neither starts nor ends
   * with a space splits into non-empty tokens only.
   */
  lemma {:induction false} SplitTokensNonEmpty(s: string)
    requires s != [] && NoDoubleSpace(s)
    requires s[0] != ' ' && s[|s| - 1] != ' '
    ensures forall i :: 0 <= i < |Split(s)| ==> Split(s)[i] != []
  {
    if |s| > 1 {
      if s[1] == ' ' {
        var u := s[2..];
        assert s[1..][1..] == u;
        SplitTokensNonEmpty(u);
        var rest := Split(s[1..]);
        assert rest == [[]] + Split(u);
        assert rest[0] == [] && rest[1..] == Split(u);
        assert Split(s) == [[s[0]] + rest[0]] + rest[1..];
      } else {
        SplitTokensNonEmpty(s[1..]);
      }
    }
  }

  /** The non-empty tokens of `ts`, in order. */
  function NonEmpty(ts: seq<string>): (r: seq<string>)
    ensures forall i :: 0 <= i < |r| ==> r[i] != [] && r[i] in ts
  {
    if ts == [] then []
    else (if ts[0] == [] then [] else [ts[0]]) + NonEmpty(ts[1..])
  }

  /** The words of `s`: its maximal runs of characters other than the space, in order. */
  function Words(s: string): seq<string>
  {
    NonEmpty(Split(s))
  }

  /**
   * Collapsing runs of spaces keeps the text before the first space and
   * every word, in order: a run of spaces between two words becomes one
   * space and is never dropped. With `NoDoubleSpace` and the first and
   * last characters that `CollapseSpaces` keeps, this determines its result.
   */
  lemma {:induction false} CollapseKeepsWords(s: string)
    ensures Split(CollapseSpaces(s))[0] == Split(s)[0]
    ensures Words(CollapseSpaces(s)) == Words(s)
  {
    if |s| > 1 {
      var t := s[1..];
      var rt := CollapseSpaces(t);
      CollapseKeepsWords(t);
      var st, srt := Split(t), Split(rt);
      if s[0] == ' ' && s[1] == ' ' {
        assert Split(s) == [[]] + st;
        assert ([[]] + st)[1..] == st;
        assert st == [[]] + Split(t[1..]);
      } else {
        var r := [s[0]] + rt;
        assert r[1..] == rt;
        assert CollapseSpaces(s) == r;
        if s[0] == ' ' {
          assert Split(s) == [[]] + st && ([[]] + st)[1..] == st;
          assert Split(r) == [[]] + srt && ([[]] + srt)[1..] == srt;
        } else {
          var hs := if st[0] == [] then [] else [st[0]];
          assert NonEmpty(st) == hs + NonEmpty(st[1..]);
          assert NonEmpty(srt) == hs + NonEmpty(srt[1..]);
          assert NonEmpty(st[1..]) == (hs + NonEmpty(st[1..]))[|hs|..];
          assert NonEmpty(srt[1..]) == (hs + NonEmpty(srt[1..]))[|hs|..];
          var ss := [[s[0]] + st[0]] + st[1..];
          var sr := [[s[0]] + srt[0]] + srt[1..];
          assert Split(s) == ss && ss[1..] == st[1..];
          assert Split(r) == sr && sr[1..] == srt[1..];
        }
      }
    }
  }

  // ---------------------------------------------------------------------
  // Tokens and vocabulary
  // ---------------------------------------------------------------------

  /** The tokens of a stored label: `txt.strip().split(' ')`. */
  function Tokenize(text: string): (ts: seq<string>)
    ensures |ts| >= 1 && Join(ts) == Strip(text)
    ensures forall i :: 0 <= i < |ts| ==> ' ' !in ts[i]
  {
    JoinSplit(Strip(text));
    Split(Strip(text))
  }

  /** The elements of a sequence of strings, as a set. */
  function SetOf(xs: seq<string>): set<string>
  {
    set x | x in xs
  }

  /** Appending a string to a list adds exactly that string to its set. */
  lemma SetOfSnoc(xs: seq<string>, x: string)
    ensures SetOf(xs + [x]) == SetOf(xs) + {x}
  {
  }

  /** The token list of each label, in label order. */
  function TokenLists(labels: seq<string>): (tl: seq<seq<string>>)
    ensures |tl| == |labels|
  {
    seq(|labels|, i requires 0 <= i < |labels| => Tokenize(labels[i]))
  }

  /** All strings of all lists, with duplicates merged. */
  function Union(tl: seq<seq<string>>): set<string>
  {
    if tl == [] then {} else Union(tl[..|tl| - 1]) + SetOf(tl[|tl| - 1])
  }

  /** A string is in the union exactly when it is in one of the lists. */
  lemma {:induction false} UnionMembership(tl: seq<seq<string>>, t: string)
    ensures t in Union(tl) <==> exists i :: 0 <= i < |tl| && t in tl[i]
  {
    if tl != [] {
      var n := |tl|;
      var init := tl[..n - 1];
      UnionMembership(init, t);
      if t in Union(tl) && t !in SetOf(tl[n - 1]) {
        var i :| 0 <= i < n - 1 && t in init[i];
        assert init[i] == tl[i];
      }
      if exists i :: 0 <= i < n && t in tl[i] {
        var i :| 0 <= i < n && t in tl[i];
        if i < n - 1 {
          assert init[i] == tl[i];
        }
      }
    }
  }

  /** Every token of every label, with duplicates merged. */
  function Vocabulary(labels: seq<string>): set<string>
  {
    Union(TokenLists(labels))
  }

  /** Adding one more label adds exactly its tokens to the vocabulary. */
  lemma VocabularyStep(labels: seq<string>, i: nat)
    requires i < |labels|
    ensures Vocabulary(labels[..i + 1]) == Vocabulary(labels[..i]) + SetOf(Tokenize(labels[i]))
  {
    var tl := TokenLists(labels[..i + 1]);
    assert tl[..i] == TokenLists(labels[..i]);
    assert tl[i] == Tokenize(labels[i]);
  }

  /** A string is in the vocabulary exactly when it is a token of some label. */
  lemma VocabularyMembership(labels: seq<string>, t: string)
    ensures t in Vocabulary(labels) <==> exists i :: 0 <= i < |labels| && t in Tokenize(labels[i])
  {
    var tl := TokenLists(labels);
    UnionMembership(tl, t);
    if exists i :: 0 <= i < |labels| && t in Tokenize(labels[i]) {
      var i :| 0 <= i < |labels| && t in Tokenize(labels[i]);
      assert t in tl[i];
    }
  }

  /** Dropping spaces keeps exactly the non-whitespace content. */
  lemma {:induction false} BlankNonSpaces(s: string)
    ensures Blank(NonSpaces(s)) <==> Blank(s)
  {
    if s != [] {
      BlankNonSpaces(s[1..]);
      var head := if s[0] == ' ' then [] else [s[0]];
      assert NonSpaces(s) == head + NonSpaces(s[1..]);
      BlankAppend(head, NonSpaces(s[1..]));
      assert s == [s[0]] + s[1..];
      BlankAppend([s[0]], s[1..]);
    }
  }

  /**
   * The empty token is among a cleaned label's tokens exactly when the
   * original label is blank; otherwise every token is non-empty.
   */
  lemma CleanTokens(text: string)
    ensures var ts := Tokenize(CollapseSpaces(text));
            ([] in ts <==> Blank(text))
            && (!Blank(text) ==> forall i :: 0 <= i < |ts| ==> ts[i] != [])
  {
    var r := CollapseSpaces(text);
    var t := Strip(r);
    BlankNonSpaces(text);
    BlankNonSpaces(r);
    if t == [] {
      assert Split(t) == [[]];
    } else {
      assert !IsWhitespace(t[0]) && !IsWhitespace(t[|t| - 1]);
      SplitTokensNonEmpty(t);
    }
  }
}
