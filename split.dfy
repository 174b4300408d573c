/**
 * The line splitter behind the in-memory row source: .NET's
 * `String.Split(string[] separator, StringSplitOptions.None)`.
 *
 * The multi-separator rule modelled here is the one .NET documents and
 * implements: the text is scanned from left to right, and at each position the
 * FIRST token in array order that the text continues with is taken as the
 * delimiter; scanning resumes right after it. Empty tokens never match. An
 * empty token array makes every white-space character (`Char.IsWhiteSpace`)
 * a delimiter. Empty pieces are kept (`StringSplitOptions.None`), so the
 * result always has at least one piece.
 */
module Split {
  import opened Wrappers

  /** The characters for which .NET's `Char.IsWhiteSpace` holds. */
  const WhiteSpaceChars: seq<char> :=
    [ '\t', '\n', '\U{0B}', '\U{0C}', '\r', ' ', '\U{85}', '\U{A0}', '\U{1680}',
      '\U{2000}', '\U{2001}', '\U{2002}', '\U{2003}', '\U{2004}', '\U{2005}',
      '\U{2006}', '\U{2007}', '\U{2008}', '\U{2009}', '\U{200A}',
      '\U{2028}', '\U{2029}', '\U{202F}', '\U{205F}', '\U{3000}' ]

  predicate IsWhiteSpace(c: char) {
    c in WhiteSpaceChars
  }

  /** One single-character delimiter per white-space character. */
  function WhiteSpaceTokens(): (ts: seq<string>)
    ensures forall t :: t in ts ==> |t| == 1 && IsWhiteSpace(t[0])
  {
    seq(|WhiteSpaceChars|, i requires 0 <= i < |WhiteSpaceChars| => [WhiteSpaceChars[i]])
  }

  lemma WhiteSpaceIsToken(c: char)
    ensures IsWhiteSpace(c) ==> [c] in WhiteSpaceTokens()
  {
    forall i | 0 <= i < |WhiteSpaceChars| && WhiteSpaceChars[i] == c
      ensures [c] in WhiteSpaceTokens()
    {
      assert WhiteSpaceTokens()[i] == [c];
    }
  }

  /**
   * The delimiters actually in force for a given token array: the tokens
   * themselves, or, when there are none, every white-space character.
   */
  function Delimiters(separators: seq<string>): (ds: seq<string>)
    ensures |separators| > 0 ==> ds == separators
    ensures |separators| == 0 ==> forall d :: d in ds ==> |d| == 1 && IsWhiteSpace(d[0])
    ensures |separators| == 0 ==> forall c :: IsWhiteSpace(c) ==> [c] in ds
  {
    WhiteSpaceTokensComplete();
    if |separators| == 0 then WhiteSpaceTokens() else separators
  }

  lemma WhiteSpaceTokensComplete()
    ensures forall c :: IsWhiteSpace(c) ==> [c] in WhiteSpaceTokens()
  {
    forall c | IsWhiteSpace(c)
      ensures [c] in WhiteSpaceTokens()
    {
      WhiteSpaceIsToken(c);
    }
  }

  /** `rest` continues with the non-empty token `d`. */
  predicate StartsWith(rest: string, d: string) {
    0 < |d| && d <= rest
  }

  /** `p` holds an occurrence of the non-empty token `d`. */
  ghost predicate Contains(p: string, d: string) {
    exists j :: 0 <= j <= |p| && StartsWith(p[j..], d)
  }

  /** The position in `ds` of the first token that `rest` starts with, if any. */
  function FirstMatch(rest: string, ds: seq<string>): (k: Option<nat>)
    ensures k.Some? ==> k.value < |ds| && StartsWith(rest, ds[k.value])
    ensures k.Some? ==> forall j :: 0 <= j < k.value ==> !StartsWith(rest, ds[j])
    ensures k.None? ==> forall j :: 0 <= j < |ds| ==> !StartsWith(rest, ds[j])
    decreases |ds|
  {
    if ds == [] then None
    else if StartsWith(rest, ds[0]) then Some(0)
    else match FirstMatch(rest, ds[1..])
      case None => None
      case Some(k) => Some(k + 1)
  }

  /**
   * Scans `rest`; `acc` is the part of the current piece already passed over.
   * Each delimiter found closes the current piece.
   */
  function Scan(rest: string, ds: seq<string>, acc: string): (pieces: seq<string>)
    ensures |pieces| >= 1
    decreases |rest|
  {
    if rest == [] then [acc]
    else match FirstMatch(rest, ds)
      case Some(k) => [acc] + Scan(rest[|ds[k]|..], ds, [])
      case None => Scan(rest[1..], ds, acc + [rest[0]])
  }

  /** The delimiters that `Scan` cuts at, in order. */
  function ScanDelimiters(rest: string, ds: seq<string>): seq<string>
    decreases |rest|
  {
    if rest == [] then []
    else match FirstMatch(rest, ds)
      case Some(k) => [ds[k]] + ScanDelimiters(rest[|ds[k]|..], ds)
      case None => ScanDelimiters(rest[1..], ds)
  }

  /**
   * `s.Split(separators, StringSplitOptions.None)`: never empty, and one piece
   * more than delimiters cut at.
   */
  function SplitLines(s: string, separators: seq<string>): (lines: seq<string>)
    ensures |lines| >= 1
    ensures |lines| == |DelimitersUsed(s, separators)| + 1
  {
    ScanRebuilds(s, Delimiters(separators), []);
    Scan(s, Delimiters(separators), [])
  }

  /** The delimiters `SplitLines` cut at, in order. */
  function DelimitersUsed(s: string, separators: seq<string>): seq<string> {
    ScanDelimiters(s, Delimiters(separators))
  }

  /** pieces[0] + delims[0] + pieces[1] + ... + pieces[n]. */
  function Interleave(pieces: seq<string>, delims: seq<string>): string
    requires |pieces| == |delims| + 1
  {
    if delims == [] then pieces[0]
    else pieces[0] + delims[0] + Interleave(pieces[1..], delims[1..])
  }

  /** `String.Join(sep, lines)`. */
  function Join(lines: seq<string>, sep: string): string {
    if |lines| == 0 then []
    else if |lines| == 1 then lines[0]
    else lines[0] + sep + Join(lines[1..], sep)
  }

  /** Non-overlapping occurrences of `sep` in `s`, counted from the left. */
  function CountMatches(s: string, sep: string): nat
    decreases |s|
  {
    if s == [] then 0
    else if StartsWith(s, sep) then 1 + CountMatches(s[|sep|..], sep)
    else CountMatches(s[1..], sep)
  }

  /**
   * `d` cannot be found in `l` followed by `d` other than where that `d` starts:
   * no occurrence of `d` begins inside `l`, not even one running into the
   * delimiter written after it.
   */
  ghost predicate NoEarlyMatch(l: string, d: string) {
    forall j :: 0 <= j < |l| ==> !StartsWith((l + d)[j..], d)
  }

  // ---------------------------------------------------------------------
  // Rebuilding the input from the pieces

  lemma {:induction false} ScanRebuilds(rest: string, ds: seq<string>, acc: string)
    ensures |Scan(rest, ds, acc)| == |ScanDelimiters(rest, ds)| + 1
    ensures Interleave(Scan(rest, ds, acc), ScanDelimiters(rest, ds)) == acc + rest
    ensures forall d :: d in ScanDelimiters(rest, ds) ==> d in ds
    decreases |rest|
  {
    if rest == [] {
    } else {
      match FirstMatch(rest, ds)
      case Some(k) =>
        var d := ds[k];
        ScanRebuilds(rest[|d|..], ds, []);
        assert rest == d + rest[|d|..];
      case None =>
        ScanRebuilds(rest[1..], ds, acc + [rest[0]]);
        assert acc + [rest[0]] + rest[1..] == acc + rest;
    }
  }

  /**
   * Splitting loses nothing: the pieces, put back together with the
   * delimiters cut at, give the input, and every such delimiter is one in force.
   */
  lemma SplitRebuilds(s: string, separators: seq<string>)
    ensures |SplitLines(s, separators)| == |DelimitersUsed(s, separators)| + 1
    ensures Interleave(SplitLines(s, separators), DelimitersUsed(s, separators)) == s
    ensures forall d :: d in DelimitersUsed(s, separators) ==> d in Delimiters(separators)
  {
    ScanRebuilds(s, Delimiters(separators), []);
  }

  // ---------------------------------------------------------------------
  // Where the cuts fall: the leftmost match, with the first token in array order

  /**
   * `pieces` and `delims` cut `text` the way `String.Split` does: no token
   * in `ds` starts anywhere inside a piece (not even one that would run on
   * into what follows it), and right after each piece but the last comes the
   * first token, in array order, that the rest of the text starts with.
   */
  ghost predicate LeftmostCuts(text: string, pieces: seq<string>, delims: seq<string>, ds: seq<string>)
    requires |pieces| == |delims| + 1
    decreases |delims|
  {
    && |pieces[0]| <= |text|
    && (forall q :: 0 <= q < |pieces[0]| ==> FirstMatch(text[q..], ds).None?)
    && (delims == [] ||
        var at := text[|pieces[0]|..];
        && FirstMatch(at, ds).Some?
        && ds[FirstMatch(at, ds).value] == delims[0]
        && LeftmostCuts(at[|delims[0]|..], pieces[1..], delims[1..], ds))
  }

  lemma {:induction false} ScanLeftmost(rest: string, ds: seq<string>, acc: string)
    requires forall q :: 0 <= q < |acc| ==> FirstMatch((acc + rest)[q..], ds).None?
    ensures |Scan(rest, ds, acc)| == |ScanDelimiters(rest, ds)| + 1
    ensures LeftmostCuts(acc + rest, Scan(rest, ds, acc), ScanDelimiters(rest, ds), ds)
    decreases |rest|
  {
    ScanRebuilds(rest, ds, acc);
    if rest == [] {
      assert acc + rest == acc;
    } else {
      match FirstMatch(rest, ds)
      case Some(k) =>
        var d := ds[k];
        ScanLeftmost(rest[|d|..], ds, []);
        assert (acc + rest)[|acc|..] == rest;
        assert [] + rest[|d|..] == rest[|d|..];
      case None =>
        var acc' := acc + [rest[0]];
        assert acc' + rest[1..] == acc + rest;
        assert (acc + rest)[|acc|..] == rest;
        ScanLeftmost(rest[1..], ds, acc');
    }
  }

  /** The split cuts at the leftmost match, using the first token in array order there. */
  lemma SplitCutsLeftmost(s: string, separators: seq<string>)
    ensures |SplitLines(s, separators)| == |DelimitersUsed(s, separators)| + 1
    ensures LeftmostCuts(s, SplitLines(s, separators), DelimitersUsed(s, separators), Delimiters(separators))
  {
    ScanLeftmost(s, Delimiters(separators), []);
    assert [] + s == s;
  }

  lemma InterleaveHead(pieces: seq<string>, delims: seq<string>)
    requires |pieces| == |delims| + 1
    ensures |pieces[0]| <= |Interleave(pieces, delims)|
    ensures Interleave(pieces, delims)[..|pieces[0]|] == pieces[0]
    ensures delims == [] ==> Interleave(pieces, delims) == pieces[0]
    ensures delims != [] ==>
              Interleave(pieces, delims)[|pieces[0]|..] == delims[0] + Interleave(pieces[1..], delims[1..])
  {
  }

  /** At most one way of cutting a text rebuilds it and cuts it leftmost-first. */
  lemma {:induction false} LeftmostCutsUnique(text: string, p1: seq<string>, d1: seq<string>,
                                              p2: seq<string>, d2: seq<string>, ds: seq<string>)
    requires |p1| == |d1| + 1 && |p2| == |d2| + 1
    requires Interleave(p1, d1) == text && Interleave(p2, d2) == text
    requires LeftmostCuts(text, p1, d1, ds) && LeftmostCuts(text, p2, d2, ds)
    ensures p1 == p2 && d1 == d2
    decreases |d1|
  {
    InterleaveHead(p1, d1);
    InterleaveHead(p2, d2);
    var a, b := |p1[0]|, |p2[0]|;
    assert d1 != [] ==> FirstMatch(text[a..], ds).Some?;
    assert d2 != [] ==> FirstMatch(text[b..], ds).Some?;
    assert a == b;
    assert p1[0] == p2[0];
    if d1 == [] {
      assert d2 == [];
      assert p1 == [p1[0]] && p2 == [p2[0]];
    } else {
      assert d2 != [];
      var at := text[a..];
      assert d1[0] == d2[0];
      var tail := at[|d1[0]|..];
      assert Interleave(p1[1..], d1[1..]) == tail;
      assert Interleave(p2[1..], d2[1..]) == tail;
      LeftmostCutsUnique(tail, p1[1..], d1[1..], p2[1..], d2[1..], ds);
      assert p1 == [p1[0]] + p1[1..] && p2 == [p2[0]] + p2[1..];
      assert d1 == [d1[0]] + d1[1..] && d2 == [d2[0]] + d2[1..];
    }
  }

  /**
   * The split is characterized without reference to how it is computed: a
   * list of pieces and delimiters is the split of `s` exactly when the pieces
   * interleaved with the delimiters rebuild `s` and every cut is the leftmost
   * match, made with the first token in array order there.
   */
  lemma SplitCharacterized(s: string, separators: seq<string>, pieces: seq<string>, delims: seq<string>)
    requires |pieces| == |delims| + 1
    ensures (Interleave(pieces, delims) == s && LeftmostCuts(s, pieces, delims, Delimiters(separators)))
        <==> (pieces == SplitLines(s, separators) && delims == DelimitersUsed(s, separators))
  {
    SplitCutsLeftmost(s, separators);
    SplitRebuilds(s, separators);
    if Interleave(pieces, delims) == s && LeftmostCuts(s, pieces, delims, Delimiters(separators)) {
      LeftmostCutsUnique(s, pieces, delims, SplitLines(s, separators), DelimitersUsed(s, separators),
                         Delimiters(separators));
    }
  }

  /**
   * Position order comes before array order: with the tokens "\n" and "\r\n",
   * "a\r\nb" is cut at "\r\n", because that match starts further left.
   */
  lemma SplitCrLfExample()
    ensures SplitLines("a\r\nb", ["\n", "\r\n"]) == ["a", "b"]
    ensures DelimitersUsed("a\r\nb", ["\n", "\r\n"]) == ["\r\n"]
  {
    var ds := ["\n", "\r\n"];
    assert Delimiters(ds) == ds;
    assert "a\r\nb"[0] == 'a' && "b"[0] == 'b';
    assert !StartsWith("a\r\nb", "\n") && !StartsWith("a\r\nb", "\r\n");
    assert !StartsWith("b", "\n") && !StartsWith("b", "\r\n");
    assert ds[1..] == ["\r\n"];
    assert FirstMatch("a\r\nb", ds) == None;
    assert "a\r\nb"[1..] == "\r\nb";
    assert FirstMatch("\r\nb", ds) == Some(1);
    assert "\r\nb"[2..] == "b";
    assert FirstMatch("b", ds) == None;
    assert "b"[1..] == "";
    assert Scan("a\r\nb", ds, []) == Scan("\r\nb", ds, [] + ['a']);
    assert [] + ['a'] == "a";
    assert Scan("\r\nb", ds, "a") == ["a"] + Scan("b", ds, []);
    assert [] + ['b'] == "b";
    assert Scan("b", ds, []) == Scan("", ds, "b") == ["b"];
  }

  lemma {:induction false} ScanJoin(rest: string, sep: string, acc: string)
    ensures Join(Scan(rest, [sep], acc), sep) == acc + rest
    decreases |rest|
  {
    if rest == [] {
    } else {
      match FirstMatch(rest, [sep])
      case Some(k) =>
        ScanJoin(rest[|sep|..], sep, []);
        var tail := Scan(rest[|sep|..], [sep], []);
        assert rest == sep + rest[|sep|..];
        JoinCons(acc, tail, sep);
      case None =>
        ScanJoin(rest[1..], sep, acc + [rest[0]]);
        assert acc + [rest[0]] + rest[1..] == acc + rest;
    }
  }

  lemma JoinCons(l: string, tail: seq<string>, sep: string)
    requires |tail| >= 1
    ensures Join([l] + tail, sep) == l + sep + Join(tail, sep)
  {
  }

  /** With a single token, joining the lines with it gives back the input. */
  lemma SplitThenJoin(s: string, sep: string)
    ensures Join(SplitLines(s, [sep]), sep) == s
  {
    ScanJoin(s, sep, []);
  }

  // ---------------------------------------------------------------------
  // How many lines

  lemma {:induction false} ScanCount(rest: string, sep: string, acc: string)
    ensures |Scan(rest, [sep], acc)| == CountMatches(rest, sep) + 1
    decreases |rest|
  {
    if rest != [] {
      match FirstMatch(rest, [sep])
      case Some(k) => ScanCount(rest[|sep|..], sep, []);
      case None => ScanCount(rest[1..], sep, acc + [rest[0]]);
    }
  }

  /** With a single token, there is one line more than there are occurrences of it. */
  lemma SplitCount(s: string, sep: string)
    ensures |SplitLines(s, [sep])| == CountMatches(s, sep) + 1
  {
    ScanCount(s, sep, []);
  }

  lemma {:induction false} CountCharMatches(s: string, c: char)
    ensures CountMatches(s, [c]) == multiset(s)[c]
    decreases |s|
  {
    if s != [] {
      CountCharMatches(s[1..], c);
      assert s == [s[0]] + s[1..];
      assert multiset(s) == multiset([s[0]]) + multiset(s[1..]);
    }
  }

  /** With a one-character token, the line count is the number of times that character occurs, plus one. */
  lemma SplitCountChar(s: string, c: char)
    ensures |SplitLines(s, [[c]])| == multiset(s)[c] + 1
  {
    SplitCount(s, [c]);
    CountCharMatches(s, c);
  }

  // ---------------------------------------------------------------------
  // No line holds a delimiter

  lemma PrefixOfLonger(x: string, y: string, d: string)
    requires |d| <= |x|
    ensures StartsWith(x + y, d) <==> StartsWith(x, d)
  {
  }

  lemma {:induction false} ScanNoDelimiterInside(rest: string, ds: seq<string>, acc: string)
    requires forall j, i :: 0 <= j < |acc| && 0 <= i < |ds| ==> !StartsWith((acc + rest)[j..], ds[i])
    ensures forall p, i :: p in Scan(rest, ds, acc) && 0 <= i < |ds| ==> !Contains(p, ds[i])
    decreases |rest|
  {
    AccHasNoDelimiter(acc, rest, ds);
    if rest != [] {
      match FirstMatch(rest, ds)
      case Some(k) =>
        ScanNoDelimiterInside(rest[|ds[k]|..], ds, []);
      case None =>
        var acc' := acc + [rest[0]];
        assert acc' + rest[1..] == acc + rest;
        assert (acc + rest)[|acc|..] == rest;
        ScanNoDelimiterInside(rest[1..], ds, acc');
    }
  }

  lemma AccHasNoDelimiter(acc: string, rest: string, ds: seq<string>)
    requires forall j, i :: 0 <= j < |acc| && 0 <= i < |ds| ==> !StartsWith((acc + rest)[j..], ds[i])
    ensures forall i :: 0 <= i < |ds| ==> !Contains(acc, ds[i])
  {
    forall i, j | 0 <= i < |ds| && 0 <= j <= |acc|
      ensures !StartsWith(acc[j..], ds[i])
    {
      if j < |acc| {
        assert (acc + rest)[j..] == acc[j..] + rest;
        if |ds[i]| <= |acc[j..]| {
          PrefixOfLonger(acc[j..], rest, ds[i]);
        }
      }
    }
  }

  /** No line holds an occurrence of a delimiter in force. */
  lemma SplitNoDelimiterInside(s: string, separators: seq<string>)
    ensures forall p, i ::
              p in SplitLines(s, separators) && 0 <= i < |Delimiters(separators)| ==>
                !Contains(p, Delimiters(separators)[i])
  {
    ScanNoDelimiterInside(s, Delimiters(separators), []);
  }

  /** With a single token, no line contains that token. */
  lemma SplitLinesAvoidSeparator(s: string, sep: string)
    requires sep != []
    ensures forall p :: p in SplitLines(s, [sep]) ==> !Contains(p, sep)
  {
    SplitNoDelimiterInside(s, [sep]);
  }

  /** With no token at all, the text is cut at white space, and no line keeps any. */
  lemma SplitOnWhiteSpace(s: string)
    ensures forall p, i :: p in SplitLines(s, []) && 0 <= i < |p| ==> !IsWhiteSpace(p[i])
  {
    SplitNoDelimiterInside(s, []);
    forall p, i | p in SplitLines(s, []) && 0 <= i < |p|
      ensures !IsWhiteSpace(p[i])
    {
      WhiteSpaceIsToken(p[i]);
      assert StartsWith(p[i..], [p[i]]);
      assert Contains(p, [p[i]]);
    }
  }

  // ---------------------------------------------------------------------
  // Splitting a joined text gives the lines back, empty ones included

  lemma {:induction false} ScanPlain(p: string, rest: string, ds: seq<string>, acc: string)
    requires forall j :: 0 <= j < |p| ==> FirstMatch((p + rest)[j..], ds).None?
    ensures Scan(p + rest, ds, acc) == Scan(rest, ds, acc + p)
    decreases |p|
  {
    if p == [] {
      assert p + rest == rest;
      assert acc + p == acc;
    } else {
      assert (p + rest)[0..] == p + rest;
      assert (p + rest)[1..] == p[1..] + rest;
      forall j | 0 <= j < |p[1..]|
        ensures FirstMatch((p[1..] + rest)[j..], ds).None?
      {
        assert (p[1..] + rest)[j..] == (p + rest)[j + 1..];
      }
      ScanPlain(p[1..], rest, ds, acc + [p[0]]);
      assert acc + [p[0]] + p[1..] == acc + p;
    }
  }

  lemma LineFollowedBySep(l: string, sep: string, tail: string)
    requires NoEarlyMatch(l, sep)
    ensures forall j :: 0 <= j < |l| ==> FirstMatch((l + (sep + tail))[j..], [sep]).None?
  {
    forall j | 0 <= j < |l|
      ensures FirstMatch((l + (sep + tail))[j..], [sep]).None?
    {
      assert (l + (sep + tail))[j..] == (l + sep)[j..] + tail;
      PrefixOfLonger((l + sep)[j..], tail, sep);
    }
  }

  lemma LastLine(l: string, sep: string)
    requires NoEarlyMatch(l, sep)
    ensures forall j :: 0 <= j < |l| ==> FirstMatch((l + [])[j..], [sep]).None?
  {
    forall j | 0 <= j < |l|
      ensures FirstMatch((l + [])[j..], [sep]).None?
    {
      assert (l + [])[j..] == l[j..];
      assert (l + sep)[j..] == l[j..] + sep;
      if |sep| <= |l[j..]| {
        PrefixOfLonger(l[j..], sep, sep);
      }
    }
  }

  lemma {:induction false} ScanOfJoin(lines: seq<string>, sep: string)
    requires sep != [] && |lines| >= 1
    requires forall l :: l in lines ==> NoEarlyMatch(l, sep)
    ensures Scan(Join(lines, sep), [sep], []) == lines
    decreases |lines|
  {
    var l := lines[0];
    if |lines| == 1 {
      LastLine(l, sep);
      ScanPlain(l, [], [sep], []);
      assert l + [] == l && [] + l == l;
      assert lines == [l];
    } else {
      var rest := Join(lines[1..], sep);
      LineFollowedBySep(l, sep, rest);
      ScanPlain(l, sep + rest, [sep], []);
      assert Join(lines, sep) == l + (sep + rest);
      assert [] + l == l;
      assert FirstMatch(sep + rest, [sep]) == Some(0);
      assert (sep + rest)[|sep|..] == rest;
      assert Scan(sep + rest, [sep], l) == [l] + Scan(rest, [sep], []);
      ScanOfJoin(lines[1..], sep);
      assert lines == [l] + lines[1..];
    }
  }

  /**
   * Splitting the join of some lines gives back exactly those lines, empty
   * ones included, as long as the token does not start inside a line.
   */
  lemma JoinThenSplit(lines: seq<string>, sep: string)
    requires sep != [] && |lines| >= 1
    requires forall l :: l in lines ==> NoEarlyMatch(l, sep)
    ensures SplitLines(Join(lines, sep), [sep]) == lines
  {
    ScanOfJoin(lines, sep);
  }

  /**
   * With a one-character token such as "\n", lines that do not hold that
   * character come back unchanged: empty lines and a trailing empty line are kept.
   */
  lemma JoinThenSplitOnChar(lines: seq<string>, c: char)
    requires |lines| >= 1
    requires forall l :: l in lines ==> c !in l
    ensures SplitLines(Join(lines, [c]), [[c]]) == lines
  {
    forall l | l in lines
      ensures NoEarlyMatch(l, [c])
    {
      forall j | 0 <= j < |l|
        ensures !StartsWith((l + [c])[j..], [c])
      {
        assert (l + [c])[j..][0] == l[j];
      }
    }
    JoinThenSplit(lines, [c]);
  }

  /** Empty text is one empty line, whatever the tokens. */
  lemma SplitEmpty(separators: seq<string>)
    ensures SplitLines([], separators) == [[]]
  {
  }
}
