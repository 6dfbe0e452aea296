/**
 * Label fitting: the words of a label are hard-split into chunks no wider than the width
 * budget (a single character may be wider), the chunks are packed greedily into lines, and
 * the font size is searched downwards for the largest one whose layout fits the circle.
 * The canvas text measurement is a parameter: nothing below assumes anything about it.
 */
module TextFit {
  import opened Common

  // ---------------------------------------------------------------- words

  /** The characters JavaScript's `\s` matches. */
  predicate IsSpace(c: char)
  {
    c == ' ' || c == '\t' || c == '\n' || c == '\r' || c == '\U{000B}' || c == '\U{000C}'
    || c == '\U{00A0}' || c == '\U{1680}' || ('\U{2000}' <= c <= '\U{200A}')
    || c == '\U{2028}' || c == '\U{2029}' || c == '\U{202F}' || c == '\U{205F}'
    || c == '\U{3000}' || c == '\U{FEFF}'
  }

  predicate NoSpace(s: string) { forall i :: 0 <= i < |s| ==> !IsSpace(s[i]) }

  /** The non-space characters of `s`, in order. */
  function RemoveSpaces(s: string): string
  {
    if s == [] then "" else (if IsSpace(s[0]) then "" else [s[0]]) + RemoveSpaces(s[1..])
  }

  /** `s` without its leading run of spaces. */
  function DropSpaces(s: string): (r: string)
    ensures |r| <= |s| && r == s[|s| - |r|..]
    ensures forall i :: 0 <= i < |s| - |r| ==> IsSpace(s[i])
    ensures r == [] || !IsSpace(r[0])
    ensures RemoveSpaces(r) == RemoveSpaces(s)
  {
    if s != [] && IsSpace(s[0]) then DropSpaces(s[1..]) else s
  }

  /** `s` with every maximal run of spaces replaced by one `' '`. */
  function Collapse(s: string): string
  {
    if s == [] then ""
    else if !IsSpace(s[0]) then [s[0]] + Collapse(s[1..])
    else if |s| > 1 && IsSpace(s[1]) then Collapse(s[1..])
    else " " + Collapse(s[1..])
  }

  /** A text that starts with a run of spaces collapses to one space and the rest after the run. */
  lemma {:induction false} CollapseSpaceRun(s: string)
    requires s != [] && IsSpace(s[0])
    ensures Collapse(s) == " " + Collapse(DropSpaces(s[1..]))
    decreases |s|
  {
    if |s| > 1 && IsSpace(s[1]) {
      CollapseSpaceRun(s[1..]);
      assert s[1..][1..] == s[2..];
    }
  }

  /**
   * `text.split(/\s+/)`: the pieces between maximal runs of spaces. A leading or trailing
   * run gives an empty first or last piece; the empty text gives one empty piece.
   */
  function SplitWords(s: string): (ws: seq<string>)
    ensures |ws| >= 1
    ensures forall i :: 0 <= i < |ws| ==> NoSpace(ws[i])
    ensures Concat(ws) == RemoveSpaces(s)
    decreases |s|
  {
    if s == [] then [""]
    else if IsSpace(s[0]) then
      var rest := SplitWords(DropSpaces(s[1..]));
      assert Concat([""] + rest) == Concat(rest);
      [""] + rest
    else
      var rest := SplitWords(s[1..]);
      var first := [s[0]] + rest[0];
      assert forall j :: 1 <= j < |first| ==> first[j] == rest[0][j - 1];
      assert Concat([first] + rest[1..]) == first + Concat(rest[1..]);
      assert Concat(rest) == rest[0] + Concat(rest[1..]);
      [first] + rest[1..]
  }

  /**
   * Where `split(/\s+/)` cuts: the pieces joined by single spaces are the text with each
   * run of spaces collapsed to one space. As no piece holds a space, this fixes the pieces.
   */
  lemma {:induction false} SplitWordsCollapse(s: string)
    ensures Join(SplitWords(s), " ") == Collapse(s)
    decreases |s|
  {
    if s == [] {
    } else if IsSpace(s[0]) {
      var rest := SplitWords(DropSpaces(s[1..]));
      assert SplitWords(s) == [""] + rest;
      SplitWordsCollapse(DropSpaces(s[1..]));
      JoinCons("", rest, " ");
      CollapseSpaceRun(s);
    } else {
      var rest := SplitWords(s[1..]);
      assert SplitWords(s) == [[s[0]] + rest[0]] + rest[1..];
      assert Collapse(s) == [s[0]] + Collapse(s[1..]);
      SplitWordsCollapse(s[1..]);
      JoinPrepend([s[0]], rest, " ");
    }
  }

  /**
   * The pieces of `split(/\s+/)` are the only ones that have no space, are at least one,
   * and joined by single spaces give the collapsed text.
   */
  lemma SplitWordsExact(s: string, ws: seq<string>)
    requires |ws| >= 1 && forall i :: 0 <= i < |ws| ==> NoSpace(ws[i])
    requires Join(ws, " ") == Collapse(s)
    ensures ws == SplitWords(s)
  {
    SplitWordsCollapse(s);
    JoinSpaceFree(ws, SplitWords(s));
  }

  /** Space-free parts are told apart by their join with single spaces. */
  lemma {:induction false} JoinSpaceFree(a: seq<string>, b: seq<string>)
    requires |a| >= 1 && forall i :: 0 <= i < |a| ==> NoSpace(a[i])
    requires |b| >= 1 && forall i :: 0 <= i < |b| ==> NoSpace(b[i])
    requires Join(a, " ") == Join(b, " ")
    ensures a == b
    decreases |a|
  {
    var j := Join(a, " ");
    JoinShape(a);
    JoinShape(b);
    if |a| == 1 && |b| == 1 {
    } else if |a| == 1 {
      assert false;
    } else if |b| == 1 {
      assert false;
    } else {
      var n := |a[0]|;
      if n < |b[0]| {
        assert false;
      } else if |b[0]| < n {
        assert false;
      }
      assert a[0] == j[..n] == b[0];
      JoinSpaceFree(a[1..], b[1..]);
      assert a == [a[0]] + a[1..] && b == [b[0]] + b[1..];
    }
  }

  /** The first part starts the joined text, and a space follows it when more parts come. */
  lemma JoinShape(parts: seq<string>)
    requires |parts| >= 1
    ensures |parts| == 1 ==> Join(parts, " ") == parts[0]
    ensures |parts| > 1 ==>
      && Join(parts, " ") == parts[0] + " " + Join(parts[1..], " ")
      && |Join(parts, " ")| > |parts[0]|
      && Join(parts, " ")[..|parts[0]|] == parts[0]
      && Join(parts, " ")[|parts[0]|] == ' '
      && Join(parts, " ")[|parts[0]| + 1..] == Join(parts[1..], " ")
  {
  }

  // ---------------------------------------------------------------- hard split

  /**
   * The chunks a word still gives when the chunk being built is `chunk` and `rest` is
   * left: a character is added to the chunk unless that makes it wider than `maxWidth`
   * and the chunk is not empty, in which case the chunk is closed and a new one started.
   */
  function ChunksFrom(chunk: string, rest: string, measure: string -> real, maxWidth: real): seq<string>
    decreases |rest|
  {
    if rest == [] then (if chunk != "" then [chunk] else [])
    else
      var test := chunk + [rest[0]];
      if measure(test) > maxWidth && |chunk| > 0 then [chunk] + ChunksFrom([rest[0]], rest[1..], measure, maxWidth)
      else ChunksFrom(test, rest[1..], measure, maxWidth)
  }

  /** The chunks one word is hard-split into. */
  function HardSplit(word: string, measure: string -> real, maxWidth: real): seq<string>
  {
    ChunksFrom("", word, measure, maxWidth)
  }

  /** A chunk longer than one character fits the width budget. */
  predicate ChunkFits(c: string, measure: string -> real, maxWidth: real)
  {
    |c| > 0 && (|c| > 1 ==> measure(c) <= maxWidth)
  }

  lemma {:induction false} ChunksFromFacts(chunk: string, rest: string, measure: string -> real, maxWidth: real)
    requires |chunk| <= 1 || measure(chunk) <= maxWidth
    ensures var out := ChunksFrom(chunk, rest, measure, maxWidth);
      && Concat(out) == chunk + rest
      && (forall i :: 0 <= i < |out| ==> ChunkFits(out[i], measure, maxWidth))
      && (forall i :: 0 <= i < |out| - 1 ==> measure(out[i] + [out[i + 1][0]]) > maxWidth)
      && (chunk != "" ==> |out| > 0 && out[0][0] == chunk[0])
    decreases |rest|
  {
    var out := ChunksFrom(chunk, rest, measure, maxWidth);
    if rest == [] {
      assert chunk + rest == chunk;
    } else {
      var test := chunk + [rest[0]];
      assert rest == [rest[0]] + rest[1..];
      if measure(test) > maxWidth && |chunk| > 0 {
        var tail := ChunksFrom([rest[0]], rest[1..], measure, maxWidth);
        ChunksFromFacts([rest[0]], rest[1..], measure, maxWidth);
        assert out == [chunk] + tail;
        assert Concat(out) == chunk + Concat(tail);
        assert Concat(out) == chunk + rest;
        assert out[1..] == tail;
        forall i | 0 <= i < |out| - 1 ensures measure(out[i] + [out[i + 1][0]]) > maxWidth {
          if i > 0 { assert out[i] == tail[i - 1] && out[i + 1] == tail[i]; }
        }
      } else {
        ChunksFromFacts(test, rest[1..], measure, maxWidth);
        assert chunk + rest == test + rest[1..];
        if chunk != "" { assert test[0] == chunk[0]; }
      }
    }
  }

  /**
   * Hard-splitting gives non-empty chunks that concatenate back to the word; a chunk of more
   * than one character fits the width; a chunk is closed only when its next character would
   * have made it too wide; an empty word gives no chunks.
   */
  lemma HardSplitFacts(word: string, measure: string -> real, maxWidth: real)
    ensures var out := HardSplit(word, measure, maxWidth);
      && Concat(out) == word
      && (forall i :: 0 <= i < |out| ==> ChunkFits(out[i], measure, maxWidth))
      && (forall i :: 0 <= i < |out| - 1 ==> measure(out[i] + [out[i + 1][0]]) > maxWidth)
      && (out == [] <==> word == "")
  {
    ChunksFromFacts("", word, measure, maxWidth);
    assert "" + word == word;
  }

  /** The per-word loop of the hard split. */
  method SplitWord(word: string, measure: string -> real, maxWidth: real) returns (out: seq<string>)
    ensures out == HardSplit(word, measure, maxWidth)
  {
    var chunk := "";
    out := [];
    var rest := word;
    while rest != []
      invariant out + ChunksFrom(chunk, rest, measure, maxWidth) == HardSplit(word, measure, maxWidth)
      decreases |rest|
    {
      var ch := rest[0];
      var test := chunk + [ch];
      if measure(test) > maxWidth && |chunk| > 0 {
        assert out + ([chunk] + ChunksFrom([ch], rest[1..], measure, maxWidth))
            == (out + [chunk]) + ChunksFrom([ch], rest[1..], measure, maxWidth);
        out := out + [chunk];
        chunk := [ch];
      } else {
        chunk := test;
      }
      rest := rest[1..];
    }
    if chunk != "" {
      out := out + [chunk];
    }
  }

  // ---------------------------------------------------------------- chunks of a text

  /** `text.split(/\s+/).flatMap(hardSplit)`, as a function of the words. */
  function FlatChunks(words: seq<string>, measure: string -> real, maxWidth: real): seq<string>
  {
    if words == [] then []
    else FlatChunks(words[..|words| - 1], measure, maxWidth) + HardSplit(words[|words| - 1], measure, maxWidth)
  }

  function Pieces(text: string, measure: string -> real, maxWidth: real): seq<string>
  {
    FlatChunks(SplitWords(text), measure, maxWidth)
  }

  lemma {:induction false} FlatChunksFacts(words: seq<string>, measure: string -> real, maxWidth: real)
    ensures var ps := FlatChunks(words, measure, maxWidth);
      && Concat(ps) == Concat(words)
      && forall i :: 0 <= i < |ps| ==> ChunkFits(ps[i], measure, maxWidth)
    decreases |words|
  {
    if words != [] {
      var init, last := words[..|words| - 1], words[|words| - 1];
      FlatChunksFacts(init, measure, maxWidth);
      HardSplitFacts(last, measure, maxWidth);
      ConcatAppend(FlatChunks(init, measure, maxWidth), HardSplit(last, measure, maxWidth));
      assert words == init + [last];
      ConcatAppend(init, [last]);
      assert Concat([last]) == last;
    }
  }

  /**
   * The chunks of a text are its non-space characters, in order, cut into non-empty chunks,
   * each of which fits the width unless it is a single character.
   */
  lemma PiecesFacts(text: string, measure: string -> real, maxWidth: real)
    ensures var ps := Pieces(text, measure, maxWidth);
      && Concat(ps) == RemoveSpaces(text)
      && forall i :: 0 <= i < |ps| ==> ChunkFits(ps[i], measure, maxWidth)
  {
    FlatChunksFacts(SplitWords(text), measure, maxWidth);
  }

  /** The flatMap over the words, one hard split per word. */
  method SplitText(text: string, measure: string -> real, maxWidth: real) returns (pieces: seq<string>)
    ensures pieces == Pieces(text, measure, maxWidth)
  {
    var words := SplitWords(text);
    pieces := [];
    var i := 0;
    while i < |words|
      invariant 0 <= i <= |words|
      invariant pieces == FlatChunks(words[..i], measure, maxWidth)
    {
      var out := SplitWord(words[i], measure, maxWidth);
      assert words[..i + 1][..i] == words[..i];
      pieces := pieces + out;
      i := i + 1;
    }
    assert words[..|words|] == words;
  }

  // ---------------------------------------------------------------- greedy packing

  /**
   * The lines still produced when the line being built is `cur` and the chunks `rest` are
   * left: a chunk joins the line (after one space) when the result fits the width;
   * otherwise the line is closed, if it is not empty, and the chunk starts the next one.
   */
  function PackFrom(cur: string, rest: seq<string>, measure: string -> real, maxWidth: real): seq<string>
    decreases |rest|
  {
    if rest == [] then (if cur != "" then [cur] else [])
    else
      var w := rest[0];
      var test := if cur != "" then cur + " " + w else w;
      if measure(test) <= maxWidth then PackFrom(test, rest[1..], measure, maxWidth)
      else (if cur != "" then [cur] else []) + PackFrom(w, rest[1..], measure, maxWidth)
  }

  function Pack(pieces: seq<string>, measure: string -> real, maxWidth: real): seq<string>
  {
    PackFrom("", pieces, measure, maxWidth)
  }

  predicate AllNonEmpty(parts: seq<string>)
  {
    forall i :: 0 <= i < |parts| ==> parts[i] != ""
  }

  /** Joining two parts with a space and then the rest with spaces is joining all of them with spaces. */
  lemma JoinMerge(cur: string, w: string, tail: seq<string>)
    ensures Join([cur + " " + w] + tail, " ") == Join([cur] + ([w] + tail), " ")
  {
    JoinCons(cur, [w] + tail, " ");
    if tail != [] {
      JoinCons(cur + " " + w, tail, " ");
      JoinCons(w, tail, " ");
    }
  }

  lemma {:induction false} PackFromJoin(cur: string, rest: seq<string>, measure: string -> real, maxWidth: real)
    requires AllNonEmpty(rest)
    ensures var lines := PackFrom(cur, rest, measure, maxWidth);
      && AllNonEmpty(lines)
      && (cur != "" || rest != [] ==> lines != [])
      && Join(lines, " ") == (if cur == "" then Join(rest, " ") else Join([cur] + rest, " "))
    decreases |rest|
  {
    var lines := PackFrom(cur, rest, measure, maxWidth);
    if rest == [] {
      if cur != "" { assert [cur] + rest == [cur]; }
    } else {
      var w := rest[0];
      var tail := rest[1..];
      var test := if cur != "" then cur + " " + w else w;
      assert rest == [w] + tail;
      assert AllNonEmpty(tail);
      if measure(test) <= maxWidth {
        PackFromJoin(test, tail, measure, maxWidth);
        assert lines == PackFrom(test, tail, measure, maxWidth);
        if cur != "" {
          JoinMerge(cur, w, tail);
        }
      } else {
        var more := PackFrom(w, tail, measure, maxWidth);
        PackFromJoin(w, tail, measure, maxWidth);
        assert Join(more, " ") == Join(rest, " ");
        if cur != "" {
          assert lines == [cur] + more;
          JoinCons(cur, more, " ");
          JoinCons(cur, rest, " ");
        } else {
          assert lines == more;
        }
      }
    }
  }

  lemma {:induction false} PackFromWidth(cur: string, rest: seq<string>, measure: string -> real, maxWidth: real)
    ensures forall line :: line in PackFrom(cur, rest, measure, maxWidth) ==>
      line == cur || measure(line) <= maxWidth || line in rest
    decreases |rest|
  {
    if rest != [] {
      var w := rest[0];
      var tail := rest[1..];
      var test := if cur != "" then cur + " " + w else w;
      assert rest == [w] + tail;
      if measure(test) <= maxWidth {
        PackFromWidth(test, tail, measure, maxWidth);
      } else {
        PackFromWidth(w, tail, measure, maxWidth);
      }
    }
  }

  /** `line` begins with the whole chunk `w`: it is `w`, or `w` followed by a space. */
  predicate Starts(line: string, w: string)
  {
    line == w || (|w| < |line| && line[..|w| + 1] == w + " ")
  }

  /** The longest space-free prefix of `line`. */
  function FirstWord(line: string): (r: string)
    ensures |r| <= |line| && r == line[..|r|] && NoSpace(r)
  {
    if line == [] || IsSpace(line[0]) then [] else [line[0]] + FirstWord(line[1..])
  }

  /** A space-free chunk that opens a line is the line's first word. */
  lemma {:induction false} StartsFirstWord(line: string, w: string)
    requires NoSpace(w) && Starts(line, w)
    ensures w == FirstWord(line)
  {
    if w != [] {
      assert line[0] == w[0];
      assert Starts(line[1..], w[1..]) by {
        if line != w {
          assert line[1..][..|w|] == line[..|w| + 1][1..];
        }
      }
      StartsFirstWord(line[1..], w[1..]);
    }
  }

  /** A line begins with at most one space-free chunk, so `Starts` names the chunk that opens it. */
  lemma StartsUnique(line: string, w: string, v: string)
    requires NoSpace(w) && NoSpace(v)
    requires Starts(line, w) && Starts(line, v)
    ensures w == v
  {
    StartsFirstWord(line, w);
    StartsFirstWord(line, v);
  }

  /**
   * Line `i` was closed by the greedy rule: the chunk of `rest` that starts line `i + 1`
   * does not fit after line `i`.
   */
  predicate ClosedAt(lines: seq<string>, rest: seq<string>, measure: string -> real, maxWidth: real, i: int)
  {
    && 0 <= i < |lines| - 1
    && exists w :: w in rest && Starts(lines[i + 1], w) && measure(lines[i] + " " + w) > maxWidth
  }

  /**
   * From any state of the packing loop, the first remaining line continues the open line,
   * and every line but the last was closed only because the chunk that starts the next
   * line did not fit after it.
   */
  lemma {:induction false} PackFromGreedy(cur: string, rest: seq<string>, measure: string -> real, maxWidth: real)
    requires AllNonEmpty(rest)
    ensures var lines := PackFrom(cur, rest, measure, maxWidth);
      && (cur != "" ==> |lines| > 0 && Starts(lines[0], cur))
      && forall i :: 0 <= i < |lines| - 1 ==> ClosedAt(lines, rest, measure, maxWidth, i)
    decreases |rest|
  {
    var lines := PackFrom(cur, rest, measure, maxWidth);
    if rest != [] {
      var w := rest[0];
      var tail := rest[1..];
      var test := if cur != "" then cur + " " + w else w;
      assert rest == [w] + tail;
      assert AllNonEmpty(tail);
      if measure(test) <= maxWidth {
        PackFromGreedy(test, tail, measure, maxWidth);
        assert lines == PackFrom(test, tail, measure, maxWidth);
        if cur != "" {
          assert test[..|cur| + 1] == cur + " ";
          if lines[0] != test {
            assert lines[0][..|cur| + 1] == lines[0][..|test| + 1][..|cur| + 1];
          }
        }
        forall i | 0 <= i < |lines| - 1 ensures ClosedAt(lines, rest, measure, maxWidth, i) {
          assert ClosedAt(lines, tail, measure, maxWidth, i);
        }
      } else {
        var more := PackFrom(w, tail, measure, maxWidth);
        PackFromGreedy(w, tail, measure, maxWidth);
        if cur != "" {
          assert lines == [cur] + more;
          forall i | 0 <= i < |lines| - 1 ensures ClosedAt(lines, rest, measure, maxWidth, i) {
            if i == 0 {
              assert lines[1] == more[0] && lines[0] + " " + w == test;
            } else {
              assert ClosedAt(more, tail, measure, maxWidth, i - 1);
              assert lines[i] == more[i - 1] && lines[i + 1] == more[i];
            }
          }
        } else {
          assert lines == more;
          forall i | 0 <= i < |lines| - 1 ensures ClosedAt(lines, rest, measure, maxWidth, i) {
            assert ClosedAt(more, tail, measure, maxWidth, i);
          }
        }
      }
    }
  }

  /**
   * Greedy packing of non-empty chunks gives non-empty lines; the lines joined by single
   * spaces are the chunks joined by single spaces; a line either fits the width or is a
   * single chunk; there are lines exactly when there are chunks; and a line is closed only
   * when the chunk that starts the next line does not fit after it.
   */
  lemma PackFacts(pieces: seq<string>, measure: string -> real, maxWidth: real)
    requires AllNonEmpty(pieces)
    ensures var lines := Pack(pieces, measure, maxWidth);
      && AllNonEmpty(lines)
      && Join(lines, " ") == Join(pieces, " ")
      && (forall line :: line in lines ==> measure(line) <= maxWidth || line in pieces)
      && (lines == [] <==> pieces == [])
      && forall i :: 0 <= i < |lines| - 1 ==> ClosedAt(lines, pieces, measure, maxWidth, i)
  {
    PackFromJoin("", pieces, measure, maxWidth);
    PackFromWidth("", pieces, measure, maxWidth);
    PackFromGreedy("", pieces, measure, maxWidth);
  }

  /** The packing loop of `wrapIntoLines`. */
  method PackLines(pieces: seq<string>, measure: string -> real, maxWidth: real) returns (lines: seq<string>)
    ensures lines == Pack(pieces, measure, maxWidth)
  {
    lines := [];
    var cur := "";
    var rest := pieces;
    while rest != []
      invariant lines + PackFrom(cur, rest, measure, maxWidth) == Pack(pieces, measure, maxWidth)
      decreases |rest|
    {
      var w := rest[0];
      var test := if cur != "" then cur + " " + w else w;
      if measure(test) <= maxWidth {
        cur := test;
      } else {
        var closed := if cur != "" then [cur] else [];
        assert lines + (closed + PackFrom(w, rest[1..], measure, maxWidth))
            == (lines + closed) + PackFrom(w, rest[1..], measure, maxWidth);
        lines := lines + closed;
        cur := w;
      }
      rest := rest[1..];
    }
    if cur != "" {
      lines := lines + [cur];
    }
  }

  // ---------------------------------------------------------------- wrapping

  /** The lines `wrapIntoLines` gives for a text at one measurement and width. */
  function Wrap(text: string, measure: string -> real, maxWidth: real): seq<string>
  {
    Pack(Pieces(text, measure, maxWidth), measure, maxWidth)
  }

  /**
   * The wrapped lines are non-empty; joined by single spaces they are the chunks of the text
   * joined by single spaces, so no character other than a space is lost or added; a line
   * wider than the budget is a single chunk; a text with no visible character gives no line;
   * a line is closed only when the chunk that starts the next line does not fit after it.
   */
  lemma WrapFacts(text: string, measure: string -> real, maxWidth: real)
    ensures var lines := Wrap(text, measure, maxWidth);
      var ps := Pieces(text, measure, maxWidth);
      && AllNonEmpty(lines)
      && Join(lines, " ") == Join(ps, " ")
      && Concat(ps) == RemoveSpaces(text)
      && (forall line :: line in lines ==> measure(line) <= maxWidth || line in ps)
      && (lines == [] <==> RemoveSpaces(text) == "")
      && forall i :: 0 <= i < |lines| - 1 ==> ClosedAt(lines, ps, measure, maxWidth, i)
  {
    var ps := Pieces(text, measure, maxWidth);
    PiecesFacts(text, measure, maxWidth);
    assert AllNonEmpty(ps);
    PackFacts(ps, measure, maxWidth);
    if ps != [] {
      assert Concat(ps) == ps[0] + Concat(ps[1..]);
    }
  }

  /** `wrapIntoLines(ctx, text, maxWidth)`. */
  method WrapIntoLines(text: string, measure: string -> real, maxWidth: real) returns (lines: seq<string>)
    ensures lines == Wrap(text, measure, maxWidth)
  {
    var pieces := SplitText(text, measure, maxWidth);
    lines := PackLines(pieces, measure, maxWidth);
  }

  // ---------------------------------------------------------------- font search

  const MIN_FONT: int := 8
  const MAX_LINES: int := 3

  /** The canvas width measurement once `ctx.font` is set to `font` pixels. */
  function MeasureAt(measure: (int, string) -> real, font: int): string -> real
  {
    s => measure(font, s)
  }

  /** `r * 1.6`: about four fifths of the diameter. */
  function MaxWidth(r: real): real { r * 1.6 }

  /** `r * 1.3`: about two thirds of the diameter. */
  function MaxHeight(r: real): real { r * 1.3 }

  /** `Math.floor(r * 0.25)`: the first font size tried. */
  function StartFont(r: real): int { (r * 0.25).Floor }

  function LayoutAt(text: string, r: real, measure: (int, string) -> real, font: int): seq<string>
  {
    Wrap(text, MeasureAt(measure, font), MaxWidth(r))
  }

  /** The layout at `font` has at most three lines and its block of lines fits the height budget. */
  predicate Fits(text: string, r: real, measure: (int, string) -> real, font: int)
  {
    var lines := LayoutAt(text, r, measure, font);
    |lines| <= MAX_LINES && (|lines| * (font + 2)) as real <= MaxHeight(r)
  }

  /**
   * What the font loop chooses. When some size in `[8, floor(r * 0.25)]` fits, the chosen
   * size is the largest that does and the chosen lines are its layout (so at most three
   * lines within the height budget); when none fits, no line is chosen and the size stays
   * at its start value.
   */
  predicate Chosen(text: string, r: real, measure: (int, string) -> real, chosenFont: int, chosenLines: seq<string>)
  {
    && ((exists f :: MIN_FONT <= f <= StartFont(r) && Fits(text, r, measure, f)) ==>
          && MIN_FONT <= chosenFont <= StartFont(r)
          && Fits(text, r, measure, chosenFont)
          && chosenLines == LayoutAt(text, r, measure, chosenFont)
          && |chosenLines| <= MAX_LINES
          && (|chosenLines| * (chosenFont + 2)) as real <= MaxHeight(r)
          && (forall f :: chosenFont < f <= StartFont(r) ==> !Fits(text, r, measure, f)))
    && ((forall f :: MIN_FONT <= f <= StartFont(r) ==> !Fits(text, r, measure, f)) ==>
          chosenFont == StartFont(r) && chosenLines == [])
  }

  /** The font loop of the label renderer. */
  method FitFont(text: string, r: real, measure: (int, string) -> real) returns (chosenFont: int, chosenLines: seq<string>)
    ensures Chosen(text, r, measure, chosenFont, chosenLines)
  {
    chosenLines := [];
    chosenFont := StartFont(r);
    var font := chosenFont;
    while font >= MIN_FONT
      invariant font <= StartFont(r)
      invariant chosenFont == StartFont(r) && chosenLines == []
      invariant forall f :: font < f <= StartFont(r) ==> !Fits(text, r, measure, f)
    {
      var lines := WrapIntoLines(text, MeasureAt(measure, font), MaxWidth(r));
      var lineHeight := font + 2;
      var blockHeight := |lines| * lineHeight;
      if |lines| <= MAX_LINES && blockHeight as real <= MaxHeight(r) {
        chosenFont := font;
        chosenLines := lines;
        assert Fits(text, r, measure, font);
        break;
      }
      font := font - 1;
    }
  }
}
