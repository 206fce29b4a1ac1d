/**
 * Python's notion of whitespace and the string operations the optimizer
 * builds on: `str.isspace`, `str.lstrip`/`rstrip`/`strip`, `str.split()`
 * with no argument, `str.join`, `re.sub(r"\s+", " ", s)` and
 * `re.sub(r"\s{2,}", repl, s)`.
 */
module Whitespace {

  /**
   * The code point ranges, bounds included, of the characters for which
   * `c.isspace()` holds: the characters of general category Zs and those of
   * bidirectional class WS, B or S. In a `str` pattern they also make up the
   * class `\s`.
   */
  const SpaceRanges: seq<(int, int)> := [
    (0x9, 0xD), (0x1C, 0x20), (0x85, 0x85), (0xA0, 0xA0), (0x1680, 0x1680),
    (0x2000, 0x200A), (0x2028, 0x2029), (0x202F, 0x202F), (0x205F, 0x205F),
    (0x3000, 0x3000)]

  /** Code point `n` lies in one of the ranges `SpaceRanges[i..]`. */
  predicate InSpaceRanges(n: int, i: nat)
    decreases |SpaceRanges| - i
  {
    i < |SpaceRanges| && ((SpaceRanges[i].0 <= n <= SpaceRanges[i].1) || InSpaceRanges(n, i + 1))
  }

  /** `c.isspace()`. */
  predicate IsSpace(c: char) {
    InSpaceRanges(c as int, 0)
  }

  predicate AllSpace(s: string) {
    forall i :: 0 <= i < |s| ==> IsSpace(s[i])
  }

  predicate NoSpace(s: string) {
    forall i :: 0 <= i < |s| ==> !IsSpace(s[i])
  }

  /** One element of `s.split()`: a non-empty run without whitespace. */
  predicate IsWord(w: string) {
    w != [] && NoSpace(w)
  }

  /** No two whitespace characters stand next to each other. */
  predicate SingleSpaced(s: string) {
    forall i :: 0 <= i < |s| - 1 ==> !SpacePair(s, i)
  }

  /** Positions `i` and `i + 1` of `s` both hold whitespace. */
  predicate SpacePair(s: string, i: int)
    requires 0 <= i < |s| - 1
  {
    IsSpace(s[i]) && IsSpace(s[i + 1])
  }

  /** Every whitespace character is the plain space U+0020. */
  predicate PlainSpaces(s: string) {
    forall i :: 0 <= i < |s| && IsSpace(s[i]) ==> s[i] == ' '
  }

  /** What `re.sub(r"\s+", " ", s).strip()` produces. */
  predicate IsNormal(s: string) {
    SingleSpaced(s) && PlainSpaces(s) && (s != [] ==> !IsSpace(s[0]) && !IsSpace(s[|s| - 1]))
  }

  /** `s.lstrip()`: the longest suffix of `s` that does not start with whitespace. */
  function LStrip(s: string): (r: string)
    ensures |r| <= |s|
  {
    if s != [] && IsSpace(s[0]) then LStrip(s[1..]) else s
  }

  /** `s.rstrip()`: the longest prefix of `s` that does not end with whitespace. */
  function RStrip(s: string): (r: string)
    ensures |r| <= |s|
  {
    if s != [] && IsSpace(s[|s| - 1]) then RStrip(s[..|s| - 1]) else s
  }

  /** `s.strip()`. */
  function Strip(s: string): string {
    RStrip(LStrip(s))
  }

  /** Length of the leading run of non-whitespace characters. */
  function WordLen(s: string): (n: nat)
    ensures n <= |s| && (n < |s| ==> IsSpace(s[n]))
  {
    if s == [] || IsSpace(s[0]) then 0 else 1 + WordLen(s[1..])
  }

  /** `s.split()`: the maximal runs of non-whitespace characters, in order. */
  function Words(s: string): seq<string>
    decreases |s|
  {
    if s == [] then []
    else if IsSpace(s[0]) then Words(s[1..])
    else
      var n := WordLen(s);
      [s[..n]] + Words(s[n..])
  }

  lemma {:induction false} WordLenNoSpace(s: string)
    ensures NoSpace(s[..WordLen(s)])
  {
    if s != [] && !IsSpace(s[0]) {
      WordLenNoSpace(s[1..]);
      assert s[..WordLen(s)] == [s[0]] + s[1..][..WordLen(s[1..])];
    }
  }

  /** `s.split()` never yields an empty string or one holding whitespace. */
  lemma {:induction false} WordsAreWords(s: string)
    ensures forall k :: 0 <= k < |Words(s)| ==> IsWord(Words(s)[k])
    decreases |s|
  {
    if s == [] {
    } else if IsSpace(s[0]) {
      WordsAreWords(s[1..]);
    } else {
      var n := WordLen(s);
      WordLenNoSpace(s);
      WordsAreWords(s[n..]);
      assert Words(s) == [s[..n]] + Words(s[n..]);
    }
  }

  /** `sep.join(ws)`. */
  function Join(ws: seq<string>, sep: string): string {
    if ws == [] then []
    else if |ws| == 1 then ws[0]
    else ws[0] + sep + Join(ws[1..], sep)
  }

  /** The words of every element of `ws`, one after another. */
  function WordsOfAll(ws: seq<string>): seq<string> {
    if ws == [] then [] else Words(ws[0]) + WordsOfAll(ws[1..])
  }

  /** `re.sub(r"\s+", " ", s)`: every maximal whitespace run becomes one space. */
  function CollapseSpace(s: string): string
    decreases |s|
  {
    if s == [] then []
    else if IsSpace(s[0]) then [' '] + CollapseSpace(LStrip(s[1..]))
    else [s[0]] + CollapseSpace(s[1..])
  }

  /**
   * `re.sub(r"\s{2,}", repl, s)`: every maximal run of two or more whitespace
   * characters becomes `repl`; a lone whitespace character is kept as it is.
   */
  function SubLongRuns(s: string, repl: string): string
    decreases |s|
  {
    if s == [] then []
    else if |s| >= 2 && IsSpace(s[0]) && IsSpace(s[1]) then repl + SubLongRuns(LStrip(s[2..]), repl)
    else [s[0]] + SubLongRuns(s[1..], repl)
  }

  /** `re.sub(r"\s+", " ", s).strip()`. */
  function Normalize(s: string): string {
    Strip(CollapseSpace(s))
  }

  // ---------------------------------------------------------------------
  // `str.split()` and `str.join`

  lemma {:induction false} WordLenConcat(x: string, y: string)
    requires WordLen(x) < |x| || y == [] || IsSpace(y[0])
    ensures WordLen(x + y) == WordLen(x)
    decreases |x|
  {
    if x == [] {
      assert x + y == y;
    } else if !IsSpace(x[0]) {
      assert (x + y)[1..] == x[1..] + y;
      WordLenConcat(x[1..], y);
    }
  }

  /** Splitting distributes over a concatenation whose seam is whitespace. */
  lemma {:induction false} WordsConcat(x: string, y: string)
    requires x == [] || y == [] || IsSpace(x[|x| - 1]) || IsSpace(y[0])
    ensures Words(x + y) == Words(x) + Words(y)
    decreases |x|
  {
    if x == [] {
      assert x + y == y;
    } else if IsSpace(x[0]) {
      assert (x + y)[1..] == x[1..] + y;
      WordsConcat(x[1..], y);
    } else {
      var n := WordLen(x);
      var xy := x + y;
      assert WordLen(xy) == n by {
        if n == |x| {
          WordLenNoSpace(x);
          assert x[..n] == x;
        }
        WordLenConcat(x, y);
      }
      assert xy[..n] == x[..n] && xy[n..] == x[n..] + y;
      WordsConcat(x[n..], y);
      assert Words(xy) == [x[..n]] + Words(x[n..] + y);
    }
  }

  lemma {:induction false} WordsOfSpace(s: string)
    requires AllSpace(s)
    ensures Words(s) == []
    decreases |s|
  {
    if s != [] {
      WordsOfSpace(s[1..]);
    }
  }

  lemma {:induction false} WordLenOfWord(w: string)
    requires NoSpace(w)
    ensures WordLen(w) == |w|
    decreases |w|
  {
    if w != [] {
      WordLenOfWord(w[1..]);
    }
  }

  /** A single word splits into itself. */
  lemma {:induction false} WordsOfWord(w: string)
    requires IsWord(w)
    ensures Words(w) == [w]
  {
    WordLenOfWord(w);
    assert w[..|w|] == w;
  }

  /** Splitting a space-joined list gives the words of each element in turn. */
  lemma {:induction false} WordsOfJoin(ws: seq<string>)
    ensures Words(Join(ws, " ")) == WordsOfAll(ws)
  {
    if ws == [] {
    } else if |ws| == 1 {
      assert ws[1..] == [];
    } else {
      var rest := Join(ws[1..], " ");
      assert Join(ws, " ") == ws[0] + ([' '] + rest);
      WordsConcat(ws[0], [' '] + rest);
      assert ([' '] + rest)[1..] == rest;
      WordsOfJoin(ws[1..]);
    }
  }

  /** `" ".join(ws).split() == ws` when every element is a single word. */
  lemma {:induction false} JoinSplitsBack(ws: seq<string>)
    requires forall k :: 0 <= k < |ws| ==> IsWord(ws[k])
    ensures Words(Join(ws, " ")) == ws
  {
    WordsOfJoin(ws);
    WordsOfAllWords(ws);
  }

  /** Pieces that split into at most one word each give at most one word per piece. */
  lemma {:induction false} WordsOfAllCount(ws: seq<string>)
    requires forall k :: 0 <= k < |ws| ==> |Words(ws[k])| <= 1
    ensures |WordsOfAll(ws)| <= |ws|
  {
    if ws != [] {
      WordsOfAllCount(ws[1..]);
    }
  }

  lemma {:induction false} WordsOfAllWords(ws: seq<string>)
    requires forall k :: 0 <= k < |ws| ==> IsWord(ws[k])
    ensures WordsOfAll(ws) == ws
  {
    if ws != [] {
      WordsOfWord(ws[0]);
      WordsOfAllWords(ws[1..]);
    }
  }

  // ---------------------------------------------------------------------
  // Stripping

  /** `s.lstrip()` removes exactly the leading whitespace. */
  lemma {:induction false} LStripDrops(s: string)
    ensures LStrip(s) == s[|s| - |LStrip(s)|..]
    ensures AllSpace(s[..|s| - |LStrip(s)|])
    ensures LStrip(s) != [] ==> !IsSpace(LStrip(s)[0])
    decreases |s|
  {
    if s != [] && IsSpace(s[0]) {
      LStripDrops(s[1..]);
      assert s[1..][|s| - 1 - |LStrip(s)|..] == s[|s| - |LStrip(s)|..];
      var k := |s| - |LStrip(s)|;
      forall i | 0 <= i < k ensures IsSpace(s[..k][i]) {
        if i > 0 {
          assert s[..k][i] == s[1..][..k - 1][i - 1];
        }
      }
    }
  }

  /** `s.rstrip()` removes exactly the trailing whitespace. */
  lemma {:induction false} RStripDrops(s: string)
    ensures RStrip(s) == s[..|RStrip(s)|]
    ensures AllSpace(s[|RStrip(s)|..])
    ensures RStrip(s) != [] ==> !IsSpace(RStrip(s)[|RStrip(s)| - 1])
    decreases |s|
  {
    if s != [] && IsSpace(s[|s| - 1]) {
      var t := s[..|s| - 1];
      RStripDrops(t);
      var k := |RStrip(s)|;
      assert t[..k] == s[..k];
      forall i | k <= i < |s| ensures IsSpace(s[i]) {
        if i < |s| - 1 {
          assert s[i] == t[k..][i - k];
        }
      }
    }
  }

  /** Python's `not s.strip()` holds exactly for all-whitespace text; otherwise the result has no whitespace at either end. */
  lemma StripDrops(s: string)
    ensures Strip(s) == [] <==> AllSpace(s)
    ensures Strip(s) != [] ==> !IsSpace(Strip(s)[0]) && !IsSpace(Strip(s)[|Strip(s)| - 1])
  {
    var l := LStrip(s);
    var r := RStrip(l);
    LStripDrops(s);
    RStripDrops(l);
    if r != [] {
      assert r[0] == l[0];
    } else {
      assert l[|r|..] == l;
      assert s[..|s| - |l|] == s;
    }
  }

  lemma {:induction false} WordsOfLStrip(s: string)
    ensures Words(LStrip(s)) == Words(s)
    decreases |s|
  {
    if s != [] && IsSpace(s[0]) {
      WordsOfLStrip(s[1..]);
    }
  }

  lemma {:induction false} WordsOfRStrip(s: string)
    ensures Words(RStrip(s)) == Words(s)
  {
    var r := RStrip(s);
    RStripDrops(s);
    var tail := s[|r|..];
    assert s == r + tail;
    WordsConcat(r, tail);
    WordsOfSpace(tail);
  }

  /** Stripping never changes the words of a text. */
  lemma {:induction false} WordsOfStrip(s: string)
    ensures Words(Strip(s)) == Words(s)
  {
    WordsOfLStrip(s);
    WordsOfRStrip(LStrip(s));
  }

  // ---------------------------------------------------------------------
  // `re.sub(r"\s+", " ", s)`

  /** The collapsed text starts with a space exactly where the text starts with whitespace. */
  lemma CollapseSpaceHead(s: string)
    requires s != []
    ensures CollapseSpace(s) != []
    ensures CollapseSpace(s)[0] == if IsSpace(s[0]) then ' ' else s[0]
  {
  }

  /** After `re.sub(r"\s+", " ", s)` every whitespace character is a lone plain space. */
  lemma {:induction false} CollapseSpaceShape(s: string)
    ensures SingleSpaced(CollapseSpace(s)) && PlainSpaces(CollapseSpace(s))
    decreases |s|
  {
    if s != [] {
      var t := if IsSpace(s[0]) then LStrip(s[1..]) else s[1..];
      if IsSpace(s[0]) {
        LStripDrops(s[1..]);
      }
      CollapseSpaceShape(t);
      var c := CollapseSpace(t);
      var r := CollapseSpace(s);
      assert r == [if IsSpace(s[0]) then ' ' else s[0]] + c;
      if t != [] {
        CollapseSpaceHead(t);
      }
      forall i | 0 <= i < |r| - 1 ensures !SpacePair(r, i) {
        if i > 0 {
          assert !SpacePair(c, i - 1);
          assert r[i] == c[i - 1] && r[i + 1] == c[i];
        }
      }
      forall i | 0 <= i < |r| && IsSpace(r[i]) ensures r[i] == ' ' {
        if i > 0 {
          assert r[i] == c[i - 1];
        }
      }
    }
  }

  /** Collapsing copies a leading run without whitespace unchanged. */
  lemma {:induction false} CollapseSpaceAfter(w: string, y: string)
    requires NoSpace(w)
    ensures CollapseSpace(w + y) == w + CollapseSpace(y)
    decreases |w|
  {
    if w == [] {
      assert w + y == y;
    } else {
      assert (w + y)[1..] == w[1..] + y;
      CollapseSpaceAfter(w[1..], y);
      assert [w[0]] + (w[1..] + CollapseSpace(y)) == w + CollapseSpace(y);
    }
  }

  /** Collapsing copies a leading word unchanged. */
  lemma CollapseSpaceWord(s: string)
    ensures CollapseSpace(s) == s[..WordLen(s)] + CollapseSpace(s[WordLen(s)..])
  {
    WordLenNoSpace(s);
    assert s == s[..WordLen(s)] + s[WordLen(s)..];
    CollapseSpaceAfter(s[..WordLen(s)], s[WordLen(s)..]);
  }

  /** `re.sub(r"\s+", " ", s)` keeps the words of `s`. */
  lemma {:induction false} WordsOfCollapseSpace(s: string)
    ensures Words(CollapseSpace(s)) == Words(s)
    decreases |s|
  {
    if s == [] {
    } else if IsSpace(s[0]) {
      var l := LStrip(s[1..]);
      WordsOfCollapseSpace(l);
      WordsOfLStrip(s[1..]);
      assert ([' '] + CollapseSpace(l))[1..] == CollapseSpace(l);
    } else {
      var n := WordLen(s);
      CollapseSpaceWord(s);
      if n < |s| {
        CollapseSpaceHead(s[n..]);
      }
      WordsConcat(s[..n], CollapseSpace(s[n..]));
      WordLenNoSpace(s);
      WordsOfWord(s[..n]);
      WordsOfCollapseSpace(s[n..]);
    }
  }

  lemma {:induction false} CollapseSpaceFixes(s: string)
    requires SingleSpaced(s) && PlainSpaces(s)
    ensures CollapseSpace(s) == s
    decreases |s|
  {
    if s != [] {
      var t := s[1..];
      assert SingleSpaced(t) by {
        forall i | 0 <= i < |t| - 1 ensures !SpacePair(t, i) {
          assert !SpacePair(s, i + 1);
          assert t[i] == s[i + 1] && t[i + 1] == s[i + 2];
        }
      }
      CollapseSpaceFixes(t);
      if IsSpace(s[0]) {
        assert t != [] ==> !SpacePair(s, 0);
        assert LStrip(t) == t;
      }
    }
  }

  // ---------------------------------------------------------------------
  // Normalisation (`re.sub(r"\s+", " ", s).strip()`)

  lemma {:induction false} SliceKeepsSpacing(s: string, lo: int, hi: int)
    requires 0 <= lo <= hi <= |s|
    requires SingleSpaced(s) && PlainSpaces(s)
    ensures SingleSpaced(s[lo..hi]) && PlainSpaces(s[lo..hi])
  {
    var t := s[lo..hi];
    forall i | 0 <= i < |t| - 1 ensures !SpacePair(t, i) {
      assert !SpacePair(s, lo + i);
      assert t[i] == s[lo + i] && t[i + 1] == s[lo + i + 1];
    }
    forall i | 0 <= i < |t| && IsSpace(t[i]) ensures t[i] == ' ' {
      assert t[i] == s[lo + i];
    }
  }

  /** The normalised text has single plain spaces and no space at either end. */
  lemma {:induction false} NormalizeIsNormal(s: string)
    ensures IsNormal(Normalize(s))
  {
    var c := CollapseSpace(s);
    CollapseSpaceShape(s);
    var l := LStrip(c);
    LStripDrops(c);
    SliceKeepsSpacing(c, |c| - |l|, |c|);
    assert c[|c| - |l|..|c|] == l;
    var r := RStrip(l);
    RStripDrops(l);
    SliceKeepsSpacing(l, 0, |r|);
    assert l[0..|r|] == r;
    StripDrops(c);
  }

  /** Normal text is a fixed point of normalisation. */
  lemma {:induction false} NormalizeFixesNormal(s: string)
    requires IsNormal(s)
    ensures Normalize(s) == s
  {
    CollapseSpaceFixes(s);
    assert LStrip(s) == s;
    assert RStrip(s) == s;
  }

  /** Normalising twice is normalising once. */
  lemma {:induction false} NormalizeIdempotent(s: string)
    ensures Normalize(Normalize(s)) == Normalize(s)
  {
    NormalizeIsNormal(s);
    NormalizeFixesNormal(Normalize(s));
  }

  /** Normalisation keeps the words, so `len(s.split())` does not change. */
  lemma {:induction false} WordsOfNormalize(s: string)
    ensures Words(Normalize(s)) == Words(s)
  {
    WordsOfStrip(CollapseSpace(s));
    WordsOfCollapseSpace(s);
  }

  /** Normal text is its own words joined by single spaces. */
  lemma {:induction false} NormalIsJoinOfWords(s: string)
    requires IsNormal(s)
    ensures s == Join(Words(s), " ")
    decreases |s|
  {
    if s != [] {
      var n := WordLen(s);
      if n == |s| {
        assert s[..n] == s;
        assert Words(s) == [s] + Words(s[n..]);
      } else {
        var y := s[n + 1..];
        NormalTail(s, n);
        WordsAfterSpace(s);
        WordsOfNonBlank(y);
        NormalIsJoinOfWords(y);
        JoinCons(s[..n], Words(y), " ");
        SplitAtSpace(s, n);
      }
    }
  }

  /** In normal text, a first word that is not all of it is followed by one space and more normal text. */
  lemma NormalTail(s: string, n: nat)
    requires IsNormal(s) && n < |s| && IsSpace(s[n])
    ensures s[n] == ' ' && n + 1 < |s|
    ensures IsNormal(s[n + 1..])
  {
    var y := s[n + 1..];
    assert n + 1 < |s|;
    assert !SpacePair(s, n);
    SliceKeepsSpacing(s, n + 1, |s|);
    assert s[n + 1..|s|] == y;
    assert y[0] == s[n + 1] && y[|y| - 1] == s[|s| - 1];
  }

  /** A first word followed by whitespace is the first element of `split()`; the rest comes from after that whitespace. */
  lemma WordsAfterSpace(s: string)
    requires s != [] && !IsSpace(s[0]) && WordLen(s) < |s|
    ensures Words(s) == [s[..WordLen(s)]] + Words(s[WordLen(s) + 1..])
  {
    assert s[WordLen(s)..][1..] == s[WordLen(s) + 1..];
  }

  /** Text that does not start with whitespace has at least one word. */
  lemma WordsOfNonBlank(s: string)
    requires s != [] && !IsSpace(s[0])
    ensures Words(s) != []
  {
    assert Words(s) == [s[..WordLen(s)]] + Words(s[WordLen(s)..]);
  }

  lemma SplitAtSpace(s: string, n: nat)
    requires n < |s| && s[n] == ' '
    ensures s == s[..n] + " " + s[n + 1..]
  {
    assert s[n..] == [s[n]] + s[n + 1..];
  }

  lemma JoinCons(w: string, ws: seq<string>, sep: string)
    requires ws != []
    ensures Join([w] + ws, sep) == w + sep + Join(ws, sep)
  {
    assert ([w] + ws)[1..] == ws;
  }

  /** `re.sub(r"\s+", " ", s).strip() == " ".join(s.split())`. */
  lemma {:induction false} NormalizeIsJoinOfWords(s: string)
    ensures Normalize(s) == Join(Words(s), " ")
  {
    NormalizeIsNormal(s);
    NormalIsJoinOfWords(Normalize(s));
    WordsOfNormalize(s);
  }

  /** Everything the optimizer's last step guarantees, in one place. */
  lemma {:induction false} NormalizeFacts(s: string)
    ensures IsNormal(Normalize(s))
    ensures Normalize(Normalize(s)) == Normalize(s)
    ensures Normalize(s) == Join(Words(s), " ")
    ensures Words(Normalize(s)) == Words(s)
  {
    NormalizeIsNormal(s);
    NormalizeIdempotent(s);
    NormalizeIsJoinOfWords(s);
    WordsOfNormalize(s);
  }

  // ---------------------------------------------------------------------
  // `re.sub(r"\s{2,}", " ", s)`

  /** The rewritten text starts with whitespace exactly where the text does. */
  lemma SubLongRunsHead(s: string)
    requires s != []
    ensures SubLongRuns(s, " ") != []
    ensures IsSpace(SubLongRuns(s, " ")[0]) <==> IsSpace(s[0])
  {
  }

  /** After rule 5 no two whitespace characters stand next to each other. */
  lemma {:induction false} SubLongRunsShape(s: string)
    ensures SingleSpaced(SubLongRuns(s, " "))
    decreases |s|
  {
    if s != [] {
      var long := |s| >= 2 && IsSpace(s[0]) && IsSpace(s[1]);
      var t := if long then LStrip(s[2..]) else s[1..];
      if long {
        LStripDrops(s[2..]);
      }
      SubLongRunsShape(t);
      var c := SubLongRuns(t, " ");
      var r := SubLongRuns(s, " ");
      assert r == (if long then " " else [s[0]]) + c;
      if t != [] {
        SubLongRunsHead(t);
      }
      forall i | 0 <= i < |r| - 1 ensures !SpacePair(r, i) {
        if i > 0 {
          assert !SpacePair(c, i - 1);
          assert r[i] == c[i - 1] && r[i + 1] == c[i];
        } else if !long && IsSpace(s[0]) {
          assert t[0] == s[1];
        }
      }
    }
  }

  /** Rule 5 copies a leading run without whitespace unchanged. */
  lemma {:induction false} SubLongRunsAfter(w: string, y: string)
    requires NoSpace(w)
    ensures SubLongRuns(w + y, " ") == w + SubLongRuns(y, " ")
    decreases |w|
  {
    if w == [] {
      assert w + y == y;
    } else {
      assert (w + y)[1..] == w[1..] + y;
      SubLongRunsAfter(w[1..], y);
      assert [w[0]] + (w[1..] + SubLongRuns(y, " ")) == w + SubLongRuns(y, " ");
    }
  }

  /** Rule 5 copies a leading word unchanged. */
  lemma SubLongRunsWord(s: string)
    ensures SubLongRuns(s, " ") == s[..WordLen(s)] + SubLongRuns(s[WordLen(s)..], " ")
  {
    WordLenNoSpace(s);
    assert s == s[..WordLen(s)] + s[WordLen(s)..];
    SubLongRunsAfter(s[..WordLen(s)], s[WordLen(s)..]);
  }

  /** Rule 5 keeps the words of the text. */
  lemma {:induction false} WordsOfSubLongRuns(s: string)
    ensures Words(SubLongRuns(s, " ")) == Words(s)
    decreases |s|
  {
    if s == [] {
    } else if |s| >= 2 && IsSpace(s[0]) && IsSpace(s[1]) {
      var l := LStrip(s[2..]);
      WordsOfSubLongRuns(l);
      WordsOfLStrip(s[2..]);
      assert (" " + SubLongRuns(l, " "))[1..] == SubLongRuns(l, " ");
      assert s[1..][1..] == s[2..];
    } else if IsSpace(s[0]) {
      WordsOfSubLongRuns(s[1..]);
      assert ([s[0]] + SubLongRuns(s[1..], " "))[1..] == SubLongRuns(s[1..], " ");
    } else {
      var n := WordLen(s);
      SubLongRunsWord(s);
      if n < |s| {
        SubLongRunsHead(s[n..]);
      }
      WordsConcat(s[..n], SubLongRuns(s[n..], " "));
      WordLenNoSpace(s);
      WordsOfWord(s[..n]);
      WordsOfSubLongRuns(s[n..]);
    }
  }

  /** Rule 5 leaves single-spaced text as it is, tabs and newlines included. */
  lemma {:induction false} SubLongRunsFixes(s: string)
    requires SingleSpaced(s)
    ensures SubLongRuns(s, " ") == s
    decreases |s|
  {
    if s != [] {
      var t := s[1..];
      assert SingleSpaced(t) by {
        forall i | 0 <= i < |t| - 1 ensures !SpacePair(t, i) {
          assert !SpacePair(s, i + 1);
          assert t[i] == s[i + 1] && t[i + 1] == s[i + 2];
        }
      }
      SubLongRunsFixes(t);
      assert |s| >= 2 ==> !SpacePair(s, 0);
    }
  }
}
