/**
 * How the streamed reply becomes text in the note: each chunk is split into
 * lines, each line that decodes to an object with a non-empty `response`
 * yields a fragment, and each fragment is inserted at the response anchor,
 * shifted right by the length of what was streamed so far.
 */
module Stream {
  import opened Wrappers
  import opened Utf16
  import opened Seqs
  import opened Buffer

  /** What `JSON.parse` makes of a line, reduced to what the engine reads: the `response` field when it is a string. */
  datatype Parsed = Malformed | Obj(response: Option<Text>)

  /**
   * The fragment one line yields: none for a blank line, a line that does not
   * parse, or an object whose `response` is missing or empty.
   */
  function Accept(line: Text, decode: Text -> Parsed): (r: Option<Text>)
    ensures r.Some? ==> r.value != [] && decode(line) == Obj(r)
  {
    if Trim(line) == [] then None
    else match decode(line)
      case Malformed => None
      case Obj(None) => None
      case Obj(Some(f)) => if f == [] then None else Some(f)
  }

  /** A line yields a fragment exactly when it is not blank and decodes to a non-empty `response`, which is the fragment. */
  lemma {:induction false} AcceptSpec(line: Text, decode: Text -> Parsed)
    ensures Accept(line, decode).Some? <==>
      !IsBlank(line) && decode(line).Obj? && decode(line).response.Some? && decode(line).response.value != []
    ensures Accept(line, decode).Some? ==> Accept(line, decode).value == decode(line).response.value
  {
    TrimSpec(line);
  }

  /** The fragments one line contributes: its fragment, or none. */
  function Yield(line: Text, decode: Text -> Parsed): (r: seq<Text>)
    ensures |r| <= 1 && (r != [] ==> r[0] != [])
  {
    match Accept(line, decode)
    case Some(f) => [f]
    case None => []
  }

  /** The fragments of the lines, in order. */
  function LineFragments(lines: seq<Text>, decode: Text -> Parsed): (r: seq<Text>)
    ensures |r| <= |lines|
    ensures forall k :: 0 <= k < |r| ==> r[k] != []
  {
    if lines == [] then []
    else LineFragments(lines[..|lines| - 1], decode) + Yield(lines[|lines| - 1], decode)
  }

  /** The fragments of one chunk as the engine reads it: the chunk is split on its own. */
  function ChunkFragments(chunk: Text, decode: Text -> Parsed): seq<Text> {
    LineFragments(Split(chunk), decode)
  }

  /** The fragments of a whole stream, chunk after chunk. */
  function StreamFragments(chunks: seq<Text>, decode: Text -> Parsed): seq<Text> {
    if chunks == [] then []
    else StreamFragments(chunks[..|chunks| - 1], decode) + ChunkFragments(chunks[|chunks| - 1], decode)
  }

  /** The concatenation of texts; also the chunks of a stream glued back together. */
  function Concat(fs: seq<Text>): Text {
    if fs == [] then [] else Concat(fs[..|fs| - 1]) + fs[|fs| - 1]
  }

  /**
   * Where the source writes the next fragment once `written` has been streamed:
   * on the anchor's line, `|written|` columns right of the anchor.
   */
  function WritePos(anchor: Pos, written: Text): Pos {
    Pos(anchor.line, anchor.ch + |written|)
  }

  /**
   * The document after the fragments were inserted, as written: the fragment
   * after `fs` goes to `WritePos(anchor, Concat(fs))`.
   */
  function Streamed(lines: seq<Text>, anchor: Pos, fs: seq<Text>): (r: seq<Text>)
    requires IsDocument(lines)
    ensures IsDocument(r)
  {
    if fs == [] then lines
    else
      var prev := fs[..|fs| - 1];
      Insert(Streamed(lines, anchor, prev), fs[|fs| - 1], WritePos(anchor, Concat(prev)))
  }

  // ---------------------------------------------------------------------------
  // Properties of the fragments

  /** Lines are handled one after the other: the fragments of two runs of lines are those of each. */
  lemma {:induction false} LineFragmentsAppend(xs: seq<Text>, ys: seq<Text>, decode: Text -> Parsed)
    ensures LineFragments(xs + ys, decode) == LineFragments(xs, decode) + LineFragments(ys, decode)
    decreases |ys|
  {
    if ys == [] {
      assert xs + ys == xs;
    } else {
      var n := |ys| - 1;
      assert (xs + ys)[..|xs + ys| - 1] == xs + ys[..n];
      assert (xs + ys)[|xs + ys| - 1] == ys[n];
      LineFragmentsAppend(xs, ys[..n], decode);
    }
  }

  /** One line more. */
  lemma {:induction false} LineFragmentsSnoc(xs: seq<Text>, x: Text, decode: Text -> Parsed)
    ensures LineFragments(xs + [x], decode) == LineFragments(xs, decode) + Yield(x, decode)
  {
    assert (xs + [x])[..|xs|] == xs;
  }

  /** A line that yields no fragment is skipped without affecting the lines after it. */
  lemma {:induction false} LineFragmentsSkip(xs: seq<Text>, line: Text, ys: seq<Text>, decode: Text -> Parsed)
    requires Accept(line, decode).None?
    ensures LineFragments(xs + [line] + ys, decode) == LineFragments(xs + ys, decode)
  {
    var a := LineFragments(xs, decode);
    LineFragmentsAppend(xs + [line], ys, decode);
    LineFragmentsSnoc(xs, line, decode);
    assert Yield(line, decode) == [];
    AppendEmpty(a);
    LineFragmentsAppend(xs, ys, decode);
  }

  /** Concatenation of fragments respects the split of the list. */
  lemma {:induction false} ConcatAppend(a: seq<Text>, b: seq<Text>)
    ensures Concat(a + b) == Concat(a) + Concat(b)
    decreases |b|
  {
    if b == [] {
      assert a + b == a;
    } else {
      var n := |b| - 1;
      assert (a + b)[..|a + b| - 1] == a + b[..n];
      assert (a + b)[|a + b| - 1] == b[n];
      ConcatAppend(a, b[..n]);
    }
  }

  /** The concatenation of line-break-free fragments has no line break. */
  lemma {:induction false} ConcatNoNewline(fs: seq<Text>)
    requires forall k :: 0 <= k < |fs| ==> NL !in fs[k]
    ensures NL !in Concat(fs)
  {
    if fs != [] {
      ConcatNoNewline(fs[..|fs| - 1]);
      assert NL !in fs[|fs| - 1];
    }
  }

  /** Inserting a line-break-free text ends on the same line, `|t|` columns further. */
  lemma {:induction false} EndPosNoNewline(p: Pos, t: Text)
    requires NL !in t
    ensures EndPos(p, t) == Pos(p.line, p.ch + |t|)
  {
    SplitNoNewline(t);
  }

  /**
   * When no fragment holds a line break, streaming the fragments one by one
   * leaves the document as if their concatenation had been inserted at the
   * anchor in one go.
   */
  lemma {:induction false} StreamedNoNewline(lines: seq<Text>, anchor: Pos, fs: seq<Text>)
    requires IsDocument(lines) && ValidPos(lines, anchor)
    requires forall k :: 0 <= k < |fs| ==> NL !in fs[k]
    ensures Streamed(lines, anchor, fs) == Insert(lines, Concat(fs), anchor)
  {
    if fs == [] {
      assert Insert(lines, [], anchor) == lines by {
        InsertNothing(lines, anchor);
      }
    } else {
      var prev := fs[..|fs| - 1];
      var f := fs[|fs| - 1];
      var c := Concat(prev);
      assert fs == prev + [f];
      StreamedNoNewline(lines, anchor, prev);
      assert NL !in c by {
        ConcatNoNewline(prev);
      }
      assert Streamed(lines, anchor, fs) == Insert(Insert(lines, c, anchor), f, EndPos(anchor, c)) by {
        StreamedSnoc(lines, anchor, prev, f, Streamed(lines, anchor, prev), WritePos(anchor, c));
        EndPosNoNewline(anchor, c);
      }
      assert Concat(fs) == c + f;
      InsertCompose(lines, c, f, anchor);
    }
  }

  /** Inserting nothing changes nothing. */
  lemma {:induction false} InsertNothing(lines: seq<Text>, p: Pos)
    requires IsDocument(lines) && ValidPos(lines, p)
    ensures Insert(lines, [], p) == lines
  {
    var pre := lines[p.line][..p.ch];
    var suf := lines[p.line][p.ch..];
    assert NL !in pre by {
      SliceNoNewline(lines[p.line], 0, p.ch);
    }
    SplitNoNewline(pre + []);
    InsertLayout(lines, [], p, pre, suf, [pre + []]);
    assert pre + [] + suf == lines[p.line];
    assert lines == lines[..p.line] + [lines[p.line]] + lines[p.line + 1..];
  }

  /**
   * The text a line-break-free stream leaves on the anchor line: what stood
   * before the anchor, the streamed text, and what stood after the anchor;
   * every other line is unchanged.
   */
  lemma {:induction false} StreamedAnchorLine(lines: seq<Text>, anchor: Pos, fs: seq<Text>)
    requires IsDocument(lines) && ValidPos(lines, anchor)
    requires forall k :: 0 <= k < |fs| ==> NL !in fs[k]
    ensures var r := Streamed(lines, anchor, fs);
      && |r| == |lines|
      && r[anchor.line] == lines[anchor.line][..anchor.ch] + Concat(fs) + lines[anchor.line][anchor.ch..]
      && forall i :: 0 <= i < |lines| && i != anchor.line ==> r[i] == lines[i]
  {
    var L := anchor.line;
    var pre := lines[L][..anchor.ch];
    var suf := lines[L][anchor.ch..];
    var t := Concat(fs);
    var r := Streamed(lines, anchor, fs);
    assert r == lines[..L] + [pre + t][..0] + [pre + t + suf] + lines[L + 1..] by {
      StreamedNoNewline(lines, anchor, fs);
      assert NL !in pre + t by {
        SliceNoNewline(lines[L], 0, anchor.ch);
        ConcatNoNewline(fs);
      }
      SplitNoNewline(pre + t);
      InsertLayout(lines, t, anchor, pre, suf, [pre + t]);
      assert Last([pre + t]) == pre + t;
    }
    LayoutFacts(lines, r, L, L, [pre + t], suf);
    forall i | 0 <= i < |lines| && i != L ensures r[i] == lines[i] {
      if i < L {
        assert r[i] == r[..L][i];
      } else {
        assert r[i] == r[L + 1..][i - L - 1];
      }
    }
  }

  // ---------------------------------------------------------------------------
  // Finding: the insert column ignores line breaks in the streamed text

  /**
   * On a line `l` the anchor ends, a first fragment `x\ny` and a second `z`:
   * as written `z` is aimed past the end of `l + x` and, the column being
   * clipped to the line's end, lands there; with tracking it follows `y`.
   */
  lemma {:induction false} BrokenFragment(l: Text, x: Text, y: Text, z: Text)
    requires NL !in l && NL !in x && NL !in y && NL !in z
    ensures var anchor := Pos(0, |l|);
      var fs := [x + [NL] + y, z];
      && Streamed([l], anchor, fs) == [l + x + z, y]
      && StreamedTracking([l], anchor, fs) == [l + x, y + z]
  {
    BrokenWritten(l, x, y, z);
    BrokenTracking(l, x, y, z);
  }

  lemma {:induction false} BrokenWritten(l: Text, x: Text, y: Text, z: Text)
    requires NL !in l && NL !in x && NL !in y && NL !in z
    ensures Streamed([l], Pos(0, |l|), [x + [NL] + y, z]) == [l + x + z, y]
  {
    var f := x + [NL] + y;
    BrokenLayout(l, x, y);
    StreamedPair([l], Pos(0, |l|), f, z);
    AppendPastEnd(l + x, y, z, |l| + |f|);
  }

  lemma {:induction false} BrokenTracking(l: Text, x: Text, y: Text, z: Text)
    requires NL !in l && NL !in x && NL !in y && NL !in z
    ensures StreamedTracking([l], Pos(0, |l|), [x + [NL] + y, z]) == [l + x, y + z]
  {
    var f := x + [NL] + y;
    BrokenLayout(l, x, y);
    TrackingPair([l], Pos(0, |l|), f, z);
    PieceThenBreak(x, y);
    assert EndPos(Pos(0, |l|), f) == Pos(1, |y|);
    InsertAtEndOfLine([l + x, y], 1, z);
  }

  /** Inserting at or past the end of the first of two lines appends to it. */
  lemma {:induction false} AppendPastEnd(u: Text, v: Text, z: Text, c: nat)
    requires NL !in u && NL !in v && NL !in z && c >= |u|
    ensures Insert([u, v], z, Pos(0, c)) == [u + z, v]
  {
    var b := [u, v];
    InsertClipped(b, z, Pos(0, c));
    assert Clip(b, Pos(0, c)) == Pos(0, |b[0]|);
    InsertAtEndOfLine(b, 0, z);
  }

  /** A fragment `x\ny` at the end of the only line `l` breaks it after `x`. */
  lemma {:induction false} BrokenLayout(l: Text, x: Text, y: Text)
    requires NL !in l && NL !in x && NL !in y
    ensures Insert([l], x + [NL] + y, Pos(0, |l|)) == [l + x, y]
  {
    var f := x + [NL] + y;
    var b0: seq<Text> := [l];
    assert NL !in l + x;
    assert Split(l + f) == [l + x, y] by {
      assert l + f == (l + x) + [NL] + y;
      PieceThenBreak(l + x, y);
    }
    assert b0[0][..|l|] == l && b0[0][|l|..] == [];
    InsertLayout(b0, f, Pos(0, |l|), l, [], [l + x, y]);
    AppendEmpty(y);
    assert b0[..0] == [] && b0[1..] == [];
  }

  /** Two fragments as written: the second goes `|f|` columns right of the anchor. */
  lemma {:induction false} StreamedPair(lines: seq<Text>, anchor: Pos, f: Text, g: Text)
    requires IsDocument(lines)
    ensures Streamed(lines, anchor, [f, g]) == Insert(Insert(lines, f, anchor), g, Pos(anchor.line, anchor.ch + |f|))
  {
    ConcatSingle(f);
    StreamedOne(lines, anchor, f);
    StreamedSnoc(lines, anchor, [f], g, Streamed(lines, anchor, [f]), WritePos(anchor, Concat([f])));
    assert [f] + [g] == [f, g];
  }

  /** One fragment goes to the anchor. */
  lemma {:induction false} StreamedOne(lines: seq<Text>, anchor: Pos, f: Text)
    requires IsDocument(lines)
    ensures Streamed(lines, anchor, [f]) == Insert(lines, f, anchor)
  {
    var b0 := Streamed(lines, anchor, []);
    assert b0 == lines;
    ConcatSingle(f);
    StreamedSnoc(lines, anchor, [], f, b0, WritePos(anchor, Concat([])));
    assert [] + [f] == [f];
    assert WritePos(anchor, Concat([])) == anchor;
  }

  /** Two fragments with tracking: the second goes where `f` ends. */
  lemma {:induction false} TrackingPair(lines: seq<Text>, anchor: Pos, f: Text, g: Text)
    requires IsDocument(lines)
    ensures StreamedTracking(lines, anchor, [f, g]) == Insert(Insert(lines, f, anchor), g, EndPos(anchor, f))
  {
    assert [] + [f] == [f] && [f] + [g] == [f, g];
    TrackingSnoc(lines, anchor, [], f);
    TrackingSnoc(lines, anchor, [f], g);
    ConcatSingle(f);
    EndPosNoNewline(anchor, []);
  }

  lemma {:induction false} ConcatSingle(f: Text)
    ensures Concat([]) == [] && Concat([f]) == f
  {
    ConcatAppend([], [f]);
    AppendEmptyFront(f);
    assert [] + [f] == [f];
  }

  /** One fragment more, as written. */
  lemma {:induction false} StreamedSnoc(lines: seq<Text>, anchor: Pos, prev: seq<Text>, f: Text, b: seq<Text>, p: Pos)
    requires IsDocument(lines) && b == Streamed(lines, anchor, prev)
    requires p == WritePos(anchor, Concat(prev))
    ensures Streamed(lines, anchor, prev + [f]) == Insert(b, f, p)
  {
    SnocParts(prev, f);
  }

  /** One fragment more, with tracking. */
  lemma {:induction false} TrackingSnoc(lines: seq<Text>, anchor: Pos, prev: seq<Text>, f: Text)
    requires IsDocument(lines)
    ensures StreamedTracking(lines, anchor, prev + [f])
      == Insert(StreamedTracking(lines, anchor, prev), f, EndPos(anchor, Concat(prev)))
  {
    SnocParts(prev, f);
  }

  /** Insertion clips its position first. */
  lemma {:induction false} InsertClipped(lines: seq<Text>, t: Text, p: Pos)
    requires IsDocument(lines)
    ensures Insert(lines, t, p) == Insert(lines, t, Clip(lines, p))
  {
  }

  /** `x + "\n" + y` for line-break-free `x` and `y` splits into the two of them. */
  lemma {:induction false} PieceThenBreak(x: Text, y: Text)
    requires NL !in x && NL !in y
    ensures Split(x + [NL] + y) == [x, y]
  {
    SplitJoin([x, y]);
    assert Join([x, y]) == x + [NL] + y by {
      assert [x, y][1..] == [y];
    }
  }

  /** Inserting a line-break-free text at the end of a line appends it to that line. */
  lemma {:induction false} InsertAtEndOfLine(lines: seq<Text>, i: nat, t: Text)
    requires IsDocument(lines) && i < |lines| && NL !in t
    ensures Insert(lines, t, Pos(i, |lines[i]|)) == lines[i := lines[i] + t]
  {
    var pre := lines[i];
    assert NL !in pre + t;
    SplitNoNewline(pre + t);
    assert lines[i][..|lines[i]|] == pre && lines[i][|lines[i]|..] == [];
    InsertLayout(lines, t, Pos(i, |lines[i]|), pre, [], [pre + t]);
    assert pre + t + [] == pre + t;
  }

  /**
   * The intended streaming: each fragment goes where the text streamed so far
   * ends, which follows the line breaks in it.
   */
  function StreamedTracking(lines: seq<Text>, anchor: Pos, fs: seq<Text>): (r: seq<Text>)
    requires IsDocument(lines)
    ensures IsDocument(r)
  {
    if fs == [] then lines
    else
      var prev := fs[..|fs| - 1];
      Insert(StreamedTracking(lines, anchor, prev), fs[|fs| - 1], EndPos(anchor, Concat(prev)))
  }

  /**
   * With tracking, streaming any fragments, line breaks or not, leaves the
   * document as if their concatenation had been inserted at the anchor.
   */
  lemma {:induction false} StreamedTrackingSpec(lines: seq<Text>, anchor: Pos, fs: seq<Text>)
    requires IsDocument(lines) && ValidPos(lines, anchor)
    ensures StreamedTracking(lines, anchor, fs) == Insert(lines, Concat(fs), anchor)
  {
    if fs == [] {
      InsertNothing(lines, anchor);
    } else {
      var prev := fs[..|fs| - 1];
      StreamedTrackingSpec(lines, anchor, prev);
      InsertCompose(lines, Concat(prev), fs[|fs| - 1], anchor);
    }
  }

  /** Without line breaks in the fragments, the written and the intended streaming agree. */
  lemma {:induction false} StreamedAgreesWithoutNewlines(lines: seq<Text>, anchor: Pos, fs: seq<Text>)
    requires IsDocument(lines) && ValidPos(lines, anchor)
    requires forall k :: 0 <= k < |fs| ==> NL !in fs[k]
    ensures Streamed(lines, anchor, fs) == StreamedTracking(lines, anchor, fs)
  {
    StreamedNoNewline(lines, anchor, fs);
    StreamedTrackingSpec(lines, anchor, fs);
  }

  // ---------------------------------------------------------------------------
  // Finding: a line cut between two chunks is lost

  /**
   * A line cut into two halves that each yield nothing: read in one chunk the
   * line yields its fragment, read in two chunks it yields nothing, because
   * each chunk is split and parsed on its own; buffered reading keeps it.
   */
  lemma {:induction false} ChunkBoundaryLosesLine(u: Text, v: Text, f: Text, decode: Text -> Parsed)
    requires NL !in u && NL !in v
    requires Accept(u + v, decode) == Some(f)
    requires Accept(u, decode).None? && Accept(v, decode).None?
    ensures StreamFragments([u + v], decode) == [f]
    ensures StreamFragments([u, v], decode) == []
    ensures BufferedFragments([u, v], decode) == [f]
  {
    assert NL !in u + v;
    OneChunk(u + v, decode);
    TwoChunks(u, v, decode);
    assert Yield(u, decode) + Yield(v, decode) == [];
    BufferedPair(u, v, decode);
  }

  /** A stream of one chunk without line breaks. */
  lemma {:induction false} OneChunk(x: Text, decode: Text -> Parsed)
    requires NL !in x
    ensures StreamFragments([x], decode) == Yield(x, decode)
  {
    OneLineChunk(x, decode);
    assert [x][..0] == [];
    AppendEmptyFront(ChunkFragments(x, decode));
  }

  /** A stream of two chunks without line breaks, each read on its own. */
  lemma {:induction false} TwoChunks(u: Text, v: Text, decode: Text -> Parsed)
    requires NL !in u && NL !in v
    ensures StreamFragments([u, v], decode) == Yield(u, decode) + Yield(v, decode)
  {
    OneChunk(u, decode);
    OneLineChunk(v, decode);
    assert [u, v][..1] == [u];
  }

  /** Two chunks without line breaks, read with buffering, are one line. */
  lemma {:induction false} BufferedPair(u: Text, v: Text, decode: Text -> Parsed)
    requires NL !in u + v
    ensures BufferedFragments([u, v], decode) == Yield(u + v, decode)
  {
    assert Concat([u, v]) == u + v by {
      assert Concat([u]) == u by {
        assert [u][..0] == [];
        AppendEmptyFront(u);
      }
      assert [u, v][..1] == [u];
    }
    BufferedFragmentsSpec([u, v], decode);
    SplitNoNewline(u + v);
    LineFragmentsSingle(u + v, decode);
  }

  /** A chunk without line breaks is one line. */
  lemma {:induction false} OneLineChunk(x: Text, decode: Text -> Parsed)
    requires NL !in x
    ensures ChunkFragments(x, decode) == Yield(x, decode)
  {
    SplitNoNewline(x);
    LineFragmentsSingle(x, decode);
  }

  /**
   * An instance: a decoder that reads the line `{}` as `{"response": "h"}`
   * and cannot read `{` or `}`.
   */
  lemma {:induction false} ChunkBoundaryCounterexample()
    ensures var decode := (t: Text) => if t == [0x7B, 0x7D] then Obj(Some([0x68])) else Malformed;
      && StreamFragments([[0x7B, 0x7D]], decode) == [[0x68]]
      && StreamFragments([[0x7B], [0x7D]], decode) == []
      && BufferedFragments([[0x7B], [0x7D]], decode) == [[0x68]]
  {
    var decode := (t: Text) => if t == [0x7B, 0x7D] then Obj(Some([0x68])) else Malformed;
    var u: Text := [0x7B];
    var v: Text := [0x7D];
    assert u + v == [0x7B, 0x7D];
    assert Accept(u + v, decode) == Some([0x68]) by {
      assert !IsBlank(u + v) by {
        assert !IsWhitespace((u + v)[0]);
      }
      AcceptSpec(u + v, decode);
    }
    assert Accept(u, decode).None? by {
      assert u != [0x7B, 0x7D];
    }
    assert Accept(v, decode).None? by {
      assert v != [0x7B, 0x7D];
    }
    ChunkBoundaryLosesLine(u, v, [0x68], decode);
  }

  /**
   * The intended reading: the incomplete last line of what has arrived is kept
   * back and continued by the next chunk.
   */
  datatype Carry = Carry(pending: Text, fragments: seq<Text>)

  function BufferStep(st: Carry, chunk: Text, decode: Text -> Parsed): Carry {
    var pieces := Split(st.pending + chunk);
    Carry(Last(pieces), st.fragments + LineFragments(pieces[..|pieces| - 1], decode))
  }

  function Buffered(chunks: seq<Text>, decode: Text -> Parsed): Carry {
    if chunks == [] then Carry([], [])
    else BufferStep(Buffered(chunks[..|chunks| - 1], decode), chunks[|chunks| - 1], decode)
  }

  /** The fragments read with buffering, the last pending line included once the stream ends. */
  function BufferedFragments(chunks: seq<Text>, decode: Text -> Parsed): seq<Text> {
    var st := Buffered(chunks, decode);
    st.fragments + LineFragments([st.pending], decode)
  }

  /**
   * After any prefix of the stream, buffering has handled exactly the complete
   * lines of what arrived and holds back its last, unfinished line.
   */
  lemma {:induction false} BufferedSpec(chunks: seq<Text>, decode: Text -> Parsed)
    ensures var whole := Split(Concat(chunks));
      Buffered(chunks, decode) == Carry(Last(whole), LineFragments(whole[..|whole| - 1], decode))
  {
    if chunks == [] {
      assert Split([]) == [[]];
      assert Split([])[..0] == [];
    } else {
      var prev := chunks[..|chunks| - 1];
      var c := chunks[|chunks| - 1];
      BufferedSpec(prev, decode);
      var s := Split(Concat(prev));
      var p := Split(Last(s) + c);
      var head := s[..|s| - 1];
      assert Buffered(chunks, decode)
        == Carry(Last(p), LineFragments(head, decode) + LineFragments(p[..|p| - 1], decode));
      assert Concat(chunks) == Concat(prev) + c;
      SplitAppend(Concat(prev), c);
      CarryStep(Split(Concat(chunks)), head, p, decode);
    }
  }

  /** The complete lines of `head + p` are those of `head` and then those of `p`. */
  lemma {:induction false} CarryStep(whole: seq<Text>, head: seq<Text>, p: seq<Text>, decode: Text -> Parsed)
    requires p != [] && whole == head + p
    ensures Last(whole) == Last(p)
    ensures LineFragments(whole[..|whole| - 1], decode)
      == LineFragments(head, decode) + LineFragments(p[..|p| - 1], decode)
  {
    var init := p[..|p| - 1];
    DropLastAppend(head, p);
    assert whole[..|whole| - 1] == head + init;
    LineFragmentsAppend(head, init, decode);
  }

  /** Buffered reading yields the fragments of the lines of the whole reply. */
  lemma {:induction false} BufferedFragmentsSpec(chunks: seq<Text>, decode: Text -> Parsed)
    ensures BufferedFragments(chunks, decode) == LineFragments(Split(Concat(chunks)), decode)
  {
    var whole := Split(Concat(chunks));
    var init := whole[..|whole| - 1];
    BufferedSpec(chunks, decode);
    LineFragmentsSingle(Last(whole), decode);
    LineFragmentsSnoc(init, Last(whole), decode);
    DropLast(whole);
  }

  /** A single line yields what `Yield` gives for it. */
  lemma {:induction false} LineFragmentsSingle(x: Text, decode: Text -> Parsed)
    ensures LineFragments([x], decode) == Yield(x, decode)
  {
    assert [x][..0] == [];
    AppendEmptyFront(Yield(x, decode));
  }

  /** Buffered reading does not depend on where the reply is cut into chunks. */
  lemma {:induction false} BufferedIgnoresChunking(c1: seq<Text>, c2: seq<Text>, decode: Text -> Parsed)
    requires Concat(c1) == Concat(c2)
    ensures BufferedFragments(c1, decode) == BufferedFragments(c2, decode)
  {
    BufferedFragmentsSpec(c1, decode);
    BufferedFragmentsSpec(c2, decode);
  }
}
