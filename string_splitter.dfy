/**
  The tokenizer `StringSplitter.splitByDelimiters`.

  The source builds the regular expression `"[" + String.join("|", delimiters) + "]"`,
  splits the source string on it and keeps the non-empty pieces. The brackets make
  the pattern a character class: every character of every delimiter is a separator
  on its own, and so is the joining `'|'` once there are two or more delimiters.
  This module models that behaviour, not a split on literal substrings.
*/
module StringSplitter {

  /** Characters with a special meaning inside a Java character class. */
  const ClassMetacharacters: set<char> := {'\\', '[', ']', '^', '-', '&'}

  /** No character of `t` is a separator. */
  ghost predicate SeparatorFree(t: string, seps: set<char>) {
    forall c | c in t :: c !in seps
  }

  /** Every character of `t` is a separator. */
  ghost predicate AllSeparators(t: string, seps: set<char>) {
    forall c | c in t :: c in seps
  }

  /** `String.join(sep, parts)`. */
  function Join(parts: seq<string>, sep: string): (joined: string)
  {
    if |parts| == 0 then []
    else if |parts| == 1 then parts[0]
    else parts[0] + sep + Join(parts[1..], sep)
  }

  /** A character occurs in the joined string exactly when it occurs in one of the
      parts, or in the separator once there are at least two parts. */
  lemma {:induction false} JoinChars(parts: seq<string>, sep: string)
    ensures forall c :: c in Join(parts, sep) <==>
      (exists i | 0 <= i < |parts| :: c in parts[i]) || (|parts| >= 2 && c in sep)
    decreases |parts|
  {
    if |parts| >= 2 {
      JoinChars(parts[1..], sep);
      forall c
        ensures c in Join(parts, sep) <==>
          (exists i | 0 <= i < |parts| :: c in parts[i]) || (|parts| >= 2 && c in sep)
      {
        if c in Join(parts[1..], sep) && !(c in sep) {
          var i :| 0 <= i < |parts[1..]| && c in parts[1..][i];
          assert c in parts[i + 1];
        }
        if exists i | 0 <= i < |parts| :: c in parts[i] {
          var i :| 0 <= i < |parts| && c in parts[i];
          if i > 0 {
            assert c in parts[1..][i - 1];
          }
        }
      }
    }
  }

  /** The separator characters of the pattern built from `delimiters`: the
      characters between the brackets of `"[" + String.join("|", delimiters) + "]"`. */
  function SepsOf(delimiters: seq<string>): (seps: set<char>)
    ensures forall c :: c in seps <==>
      (exists i | 0 <= i < |delimiters| :: c in delimiters[i]) || (c == '|' && |delimiters| >= 2)
  {
    JoinChars(delimiters, "|");
    set c | c in Join(delimiters, "|")
  }

  /** What the model assumes of the delimiters: none of their characters is special
      inside a character class, and the class is not empty (Java rejects `"[]"`). */
  ghost predicate ValidDelimiters(delimiters: seq<string>) {
    && (forall i | 0 <= i < |delimiters| :: forall c | c in delimiters[i] :: c !in ClassMetacharacters)
    && SepsOf(delimiters) != {}
  }

  /** `s` with every separator character deleted. */
  function Strip(s: string, seps: set<char>): (r: string)
    ensures SeparatorFree(r, seps)
  {
    if s == [] then []
    else (if s[0] in seps then [] else [s[0]]) + Strip(s[1..], seps)
  }

  /** The tokens laid end to end. */
  function Concat(tokens: seq<string>): (s: string)
  {
    if tokens == [] then [] else tokens[0] + Concat(tokens[1..])
  }

  /** `String.split` on a character class, before empty pieces are dropped: the
      pieces between consecutive separator characters, the empty ones included. */
  function Pieces(s: string, seps: set<char>): (r: seq<string>)
    ensures |r| >= 1
    ensures forall t | t in r :: SeparatorFree(t, seps)
    ensures r[0] == [] <==> s == [] || s[0] in seps
    decreases |s|
  {
    if s == [] then [[]]
    else
      var rest := Pieces(s[1..], seps);
      if s[0] in seps then [[]] + rest
      else
        var head := [s[0]] + rest[0];
        assert rest[0] in rest;
        assert forall c | c in head :: c == s[0] || c in rest[0];
        assert forall t | t in [head] + rest[1..] :: t == head || t in rest;
        [head] + rest[1..]
  }

  /** The `filter(s -> s.length() > 0)` step: keeps the non-empty pieces in order. */
  function NonEmpty(pieces: seq<string>): (r: seq<string>)
    ensures forall t | t in r :: t != [] && t in pieces
  {
    if pieces == [] then []
    else if pieces[0] == [] then NonEmpty(pieces[1..])
    else [pieces[0]] + NonEmpty(pieces[1..])
  }

  /** Splits `s` at every separator character and drops the empty pieces. */
  function Split(s: string, seps: set<char>): (tokens: seq<string>)
    ensures forall t | t in tokens :: t != [] && SeparatorFree(t, seps)
  {
    NonEmpty(Pieces(s, seps))
  }

  /** `splitByDelimiters(source, delimiters)`. */
  function SplitByDelimiters(source: string, delimiters: seq<string>): (tokens: seq<string>)
    requires ValidDelimiters(delimiters)
    ensures forall t | t in tokens :: t != [] && SeparatorFree(t, SepsOf(delimiters))
  {
    Split(source, SepsOf(delimiters))
  }

  /** Dropping empty pieces does not change their concatenation. */
  lemma {:induction false} NonEmptyConcat(pieces: seq<string>)
    ensures Concat(NonEmpty(pieces)) == Concat(pieces)
    decreases |pieces|
  {
    if pieces != [] {
      NonEmptyConcat(pieces[1..]);
      if pieces[0] != [] {
        assert ([pieces[0]] + NonEmpty(pieces[1..]))[1..] == NonEmpty(pieces[1..]);
      }
    }
  }

  /** The pieces laid end to end are the source without its separators. */
  lemma {:induction false} PiecesConcat(s: string, seps: set<char>)
    ensures Concat(Pieces(s, seps)) == Strip(s, seps)
    decreases |s|
  {
    if s != [] {
      PiecesConcat(s[1..], seps);
      var rest := Pieces(s[1..], seps);
      if s[0] in seps {
        assert ([[]] + rest)[1..] == rest;
      } else {
        var r := [[s[0]] + rest[0]] + rest[1..];
        assert r[1..] == rest[1..];
        assert Concat(rest) == rest[0] + Concat(rest[1..]);
        assert Concat(r) == [s[0]] + (rest[0] + Concat(rest[1..]));
      }
    }
  }

  /** The filter keeps every non-empty piece and drops every empty one, in order:
      it distributes over concatenation, and on one piece it keeps it exactly
      when it is non-empty. */
  lemma {:induction false} NonEmptyAppend(p: seq<string>, q: seq<string>)
    ensures NonEmpty(p + q) == NonEmpty(p) + NonEmpty(q)
    ensures forall t :: NonEmpty([t]) == (if t == [] then [] else [t])
    decreases |p|
  {
    if p == [] {
      assert p + q == q;
    } else {
      assert (p + q)[1..] == p[1..] + q;
      NonEmptyAppend(p[1..], q);
    }
    forall t ensures NonEmpty([t]) == (if t == [] then [] else [t]) {
      assert [t][1..] == [];
    }
  }

  /** `split` cuts at every separator: a separator between `x` and `y` ends the
      pieces of `x` and starts those of `y`. */
  lemma {:induction false} PiecesCut(x: string, c: char, y: string, seps: set<char>)
    requires c in seps
    ensures Pieces(x + [c] + y, seps) == Pieces(x, seps) + Pieces(y, seps)
    decreases |x|
  {
    if x == [] {
      assert x + [c] + y == [c] + y;
      assert ([c] + y)[1..] == y;
    } else {
      assert (x + [c] + y)[0] == x[0];
      assert (x + [c] + y)[1..] == x[1..] + [c] + y;
      PiecesCut(x[1..], c, y, seps);
    }
  }

  /** A separator-free string is a single piece. */
  lemma {:induction false} PiecesWhole(x: string, seps: set<char>)
    requires SeparatorFree(x, seps)
    ensures Pieces(x, seps) == [x]
    decreases |x|
  {
    if x != [] {
      assert x[0] in x;
      assert forall c | c in x[1..] :: c in x;
      PiecesWhole(x[1..], seps);
      assert [x[0]] + x[1..] == x;
    }
  }

  /** Order preservation: the tokens laid end to end are the source with every
      separator character deleted. */
  lemma SplitConcat(s: string, seps: set<char>)
    ensures Concat(Split(s, seps)) == Strip(s, seps)
  {
    PiecesConcat(s, seps);
    NonEmptyConcat(Pieces(s, seps));
  }

  /** How `Split` treats a leading character: a separator is skipped; any other
      character either starts a new token (when a separator or the end follows)
      or is prepended to the first token of the rest. */
  lemma SplitCons(c: char, x: string, seps: set<char>)
    ensures c in seps ==> Split([c] + x, seps) == Split(x, seps)
    ensures c !in seps && (x == [] || x[0] in seps) ==>
      Split([c] + x, seps) == [[c]] + Split(x, seps)
    ensures c !in seps && x != [] && x[0] !in seps ==>
      Split(x, seps) != [] && Split([c] + x, seps) == [[c] + Split(x, seps)[0]] + Split(x, seps)[1..]
  {
    var s := [c] + x;
    assert s[1..] == x;
    var p := Pieces(x, seps);
    if c !in seps {
      assert Pieces(s, seps) == [[c] + p[0]] + p[1..];
      assert ([[c] + p[0]] + p[1..])[1..] == p[1..];
      if x == [] || x[0] in seps {
        assert p[0] == [] && [c] + p[0] == [c];
        assert NonEmpty(p) == NonEmpty(p[1..]);
      } else {
        assert p[0] != [];
        assert NonEmpty(p) == [p[0]] + NonEmpty(p[1..]);
      }
    } else {
      assert Pieces(s, seps) == [[]] + p;
      assert ([[]] + p)[1..] == p;
    }
  }

  /** Leading separator characters do not change the tokens. */
  lemma {:induction false} SplitSkip(g: string, y: string, seps: set<char>)
    requires AllSeparators(g, seps)
    ensures Split(g + y, seps) == Split(y, seps)
    decreases |g|
  {
    if g != [] {
      assert g[0] in g;
      assert forall c | c in g[1..] :: c in g;
      assert g + y == [g[0]] + (g[1..] + y);
      SplitCons(g[0], g[1..] + y, seps);
      assert Split(g + y, seps) == Split(g[1..] + y, seps);
      SplitSkip(g[1..], y, seps);
    } else {
      assert g + y == y;
    }
  }

  /** A non-empty run of non-separator characters, followed by the end of the
      string or by a separator, is one whole token. */
  lemma {:induction false} SplitRun(t: string, y: string, seps: set<char>)
    requires t != [] && SeparatorFree(t, seps)
    requires y == [] || y[0] in seps
    ensures Split(t + y, seps) == [t] + Split(y, seps)
    decreases |t|
  {
    assert t + y == [t[0]] + (t[1..] + y);
    SplitCons(t[0], t[1..] + y, seps);
    if t[1..] != [] {
      SplitRun(t[1..], y, seps);
      assert [t[0]] + t[1..] == t;
    }
  }

  /** Separator runs `gaps` and tokens `tokens` interleaved:
      gaps[0] + tokens[0] + gaps[1] + ... + tokens[n-1] + gaps[n]. */
  function Assemble(gaps: seq<string>, tokens: seq<string>): (s: string)
    requires |gaps| == |tokens| + 1
    decreases |tokens|
  {
    if tokens == [] then gaps[0]
    else gaps[0] + tokens[0] + Assemble(gaps[1..], tokens[1..])
  }

  /** `tokens` are the maximal runs of non-separator characters of `s`: `s` is the
      tokens interleaved with runs of separators, of which every run between two
      tokens is non-empty, and no token is empty or holds a separator. */
  ghost predicate IsLayout(s: string, seps: set<char>, gaps: seq<string>, tokens: seq<string>) {
    && |gaps| == |tokens| + 1
    && (forall i | 0 <= i < |gaps| :: AllSeparators(gaps[i], seps))
    && (forall i | 0 < i < |tokens| :: gaps[i] != [])
    && (forall i | 0 <= i < |tokens| :: tokens[i] != [] && SeparatorFree(tokens[i], seps))
    && Assemble(gaps, tokens) == s
  }

  /** Every result of `Split` is the sequence of maximal runs of its source. */
  lemma {:induction false} SplitLayout(s: string, seps: set<char>)
    ensures exists gaps :: IsLayout(s, seps, gaps, Split(s, seps))
    decreases |s|
  {
    if s == [] {
      assert Pieces(s, seps) == [[]];
      assert IsLayout(s, seps, [[]], Split(s, seps));
    } else {
      var c, x := s[0], s[1..];
      assert s == [c] + x;
      SplitLayout(x, seps);
      var g :| IsLayout(x, seps, g, Split(x, seps));
      SplitCons(c, x, seps);
      if c in seps {
        LayoutSeparator(c, x, seps, g, Split(x, seps));
      } else if x == [] || x[0] in seps {
        LayoutNewToken(c, x, seps, g, Split(x, seps));
      } else {
        LayoutExtend(c, x, seps, g, Split(x, seps));
      }
    }
  }

  /** A leading separator joins the first gap. */
  lemma LayoutSeparator(c: char, x: string, seps: set<char>, g: seq<string>, ts: seq<string>)
    requires c in seps && IsLayout(x, seps, g, ts)
    ensures IsLayout([c] + x, seps, [[c] + g[0]] + g[1..], ts)
  {
    var g' := [[c] + g[0]] + g[1..];
    assert g'[1..] == g[1..];
    AssembleHead([c], g, ts);
    forall i | 0 <= i < |g'| ensures AllSeparators(g'[i], seps) {
      if i > 0 { assert g'[i] == g[i]; }
      else { assert forall d | d in g'[0] :: d == c || d in g[0]; }
    }
  }

  /** A leading non-separator before a separator or the end is a token of its own. */
  lemma LayoutNewToken(c: char, x: string, seps: set<char>, g: seq<string>, ts: seq<string>)
    requires c !in seps && (x == [] || x[0] in seps) && IsLayout(x, seps, g, ts)
    ensures IsLayout([c] + x, seps, [[]] + g, [[c]] + ts)
  {
    var g', ts' := [[]] + g, [[c]] + ts;
    assert g'[1..] == g && ts'[1..] == ts;
    assert Assemble(g', ts') == [] + [c] + x;
    forall i | 0 <= i < |ts'| ensures ts'[i] != [] && SeparatorFree(ts'[i], seps) {
      if i > 0 { assert ts'[i] == ts[i - 1]; }
    }
    forall i | 0 <= i < |g'| ensures AllSeparators(g'[i], seps) {
      if i > 0 { assert g'[i] == g[i - 1]; }
    }
    forall i | 0 < i < |ts'| ensures g'[i] != [] {
      assert g'[i] == g[i - 1];
    }
  }

  /** A leading non-separator before a non-separator extends the first token. */
  lemma LayoutExtend(c: char, x: string, seps: set<char>, g: seq<string>, ts: seq<string>)
    requires c !in seps && x != [] && x[0] !in seps && IsLayout(x, seps, g, ts)
    requires ts != []
    ensures IsLayout([c] + x, seps, g, [[c] + ts[0]] + ts[1..])
  {
    var ts' := [[c] + ts[0]] + ts[1..];
    assert ts'[1..] == ts[1..];
    assert x == ts[0] + Assemble(g[1..], ts[1..]);
    assert Assemble(g, ts') == [c] + x;
    forall i | 0 <= i < |ts'| ensures ts'[i] != [] && SeparatorFree(ts'[i], seps) {
      if i > 0 { assert ts'[i] == ts[i]; }
      else { assert forall d | d in ts'[0] :: d == c || d in ts[0]; }
    }
  }

  /** Prepending characters to the first gap prepends them to the whole layout. */
  lemma AssembleHead(pre: string, gaps: seq<string>, tokens: seq<string>)
    requires |gaps| == |tokens| + 1
    ensures |([pre + gaps[0]] + gaps[1..])| == |tokens| + 1
    ensures Assemble([pre + gaps[0]] + gaps[1..], tokens) == pre + Assemble(gaps, tokens)
  {
    var g' := [pre + gaps[0]] + gaps[1..];
    assert g'[1..] == gaps[1..];
  }

  /** Conversely, the maximal runs of a string are exactly what `Split` returns:
      together with `SplitLayout`, `Split` is characterised by `IsLayout`. */
  lemma {:induction false} SplitUnique(s: string, seps: set<char>, gaps: seq<string>, tokens: seq<string>)
    requires IsLayout(s, seps, gaps, tokens)
    ensures Split(s, seps) == tokens
    decreases |tokens|
  {
    if tokens == [] {
      SplitSkip(gaps[0], [], seps);
      assert gaps[0] + [] == gaps[0];
      assert Pieces([], seps) == [[]];
      assert NonEmpty([[]]) == [];
    } else {
      var rest := Assemble(gaps[1..], tokens[1..]);
      assert s == gaps[0] + (tokens[0] + rest);
      SplitSkip(gaps[0], tokens[0] + rest, seps);
      if tokens[1..] != [] {
        assert gaps[1..][0] == gaps[1] && gaps[1] != [];
        assert rest[0] == gaps[1][0];
      } else {
        assert rest == gaps[1];
      }
      SplitRun(tokens[0], rest, seps);
      assert IsLayout(rest, seps, gaps[1..], tokens[1..]) by {
        forall i | 0 < i < |tokens[1..]| ensures gaps[1..][i] != [] {
          assert gaps[1..][i] == gaps[i + 1];
        }
        forall i | 0 <= i < |gaps[1..]| ensures AllSeparators(gaps[1..][i], seps) {
          assert gaps[1..][i] == gaps[i + 1];
        }
        forall i | 0 <= i < |tokens[1..]|
          ensures tokens[1..][i] != [] && SeparatorFree(tokens[1..][i], seps)
        {
          assert tokens[1..][i] == tokens[i + 1];
        }
      }
      SplitUnique(rest, seps, gaps[1..], tokens[1..]);
    }
  }

  /** The source yields no tokens exactly when it is empty or made only of
      separator characters. */
  lemma SplitEmpty(s: string, seps: set<char>)
    ensures Split(s, seps) == [] <==> AllSeparators(s, seps)
  {
    SplitLayout(s, seps);
    var gaps :| IsLayout(s, seps, gaps, Split(s, seps));
    if Split(s, seps) == [] {
      assert s == gaps[0];
    }
    if AllSeparators(s, seps) {
      SplitUnique(s, seps, [s], []);
    }
  }

  /** A non-empty source without separator characters is one token. */
  lemma SplitWhole(s: string, seps: set<char>)
    requires s != [] && SeparatorFree(s, seps)
    ensures Split(s, seps) == [s]
  {
    assert Assemble([[], []], [s]) == s;
    SplitUnique(s, seps, [[], []], [s]);
  }

  /** A two-character delimiter splits on each of its characters alone. */
  lemma CommaSpaceExample()
    ensures SepsOf([", "]) == {',', ' '}
    ensures SplitByDelimiters("a,b c", [", "]) == ["a", "b", "c"]
  {
    var seps := SepsOf([", "]);
    assert ',' in [", "][0] && ' ' in [", "][0];
    assert seps == {',', ' '};
    assert ValidDelimiters([", "]);
    var gaps := ["", ",", " ", ""];
    assert Assemble(gaps, ["a", "b", "c"]) == "a,b c" by {
      assert gaps[1..][1..][1..] == [""];
    }
    SplitUnique("a,b c", seps, gaps, ["a", "b", "c"]);
  }

  /** Adjacent separators collapse; the empty source has no tokens. */
  lemma CommaExamples()
    ensures SplitByDelimiters("a,b,,c", [","]) == ["a", "b", "c"]
    ensures SplitByDelimiters("", [","]) == []
  {
    var seps := SepsOf([","]);
    assert ',' in [","][0];
    assert seps == {','};
    assert ValidDelimiters([","]);
    var gaps := ["", ",", ",,", ""];
    assert Assemble(gaps, ["a", "b", "c"]) == "a,b,,c" by {
      assert gaps[1..][1..][1..] == [""];
    }
    SplitUnique("a,b,,c", seps, gaps, ["a", "b", "c"]);
    SplitEmpty("", seps);
  }

  /** Empty delimiters: one alone gives the empty class `"[]"`, which the
      assumption excludes; two give `"[|]"`, which splits on the joining `'|'`. */
  lemma EmptyDelimitersExample()
    ensures SepsOf([""]) == {}
    ensures SepsOf(["", ""]) == {'|'} && ValidDelimiters(["", ""])
  {
    assert forall c | c in SepsOf([""]) :: false;
    assert '|' in SepsOf(["", ""]);
  }
}
