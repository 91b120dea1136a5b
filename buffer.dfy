/**
 * The host editor's document as the plugin uses it: a list of lines of UTF-16
 * code units, addressed by (line, ch) positions, and edited with
 * `replaceRange(text, from, to?)`.
 */
module Buffer {
  import opened Utf16
  import opened Seqs

  datatype Pos = Pos(line: nat, ch: nat)

  /** A document has at least one line and no line holds a line break. */
  predicate IsDocument(lines: seq<Text>) {
    |lines| >= 1 && forall i :: 0 <= i < |lines| ==> NL !in lines[i]
  }

  predicate ValidPos(lines: seq<Text>, p: Pos) {
    p.line < |lines| && p.ch <= |lines[p.line]|
  }

  predicate Before(p: Pos, q: Pos) {
    p.line < q.line || (p.line == q.line && p.ch <= q.ch)
  }

  /** The editor clips a position to the document before using it. */
  function Clip(lines: seq<Text>, p: Pos): (r: Pos)
    requires |lines| >= 1
    ensures ValidPos(lines, r)
    ensures ValidPos(lines, p) ==> r == p
    ensures r.line == p.line || r.line == |lines| - 1
  {
    if p.line >= |lines| then Pos(|lines| - 1, |lines[|lines| - 1]|)
    else if p.ch <= |lines[p.line]| then p
    else Pos(p.line, |lines[p.line]|)
  }

  /**
   * Where text inserted at `from` ends: one line down per line break, and the
   * column is then the length of the text's last line.
   */
  function EndPos(from: Pos, t: Text): Pos {
    var pieces := Split(t);
    if |pieces| == 1 then Pos(from.line, from.ch + |t|)
    else Pos(from.line + |pieces| - 1, |Last(pieces)|)
  }

  /** Replacing the text between valid ordered positions `s` and `e` by `t`. */
  function Splice(lines: seq<Text>, s: Pos, e: Pos, t: Text): (r: seq<Text>)
    requires IsDocument(lines) && ValidPos(lines, s) && ValidPos(lines, e) && Before(s, e)
    ensures IsDocument(r)
  {
    var pre := lines[s.line][..s.ch];
    var suf := lines[e.line][e.ch..];
    SliceNoNewline(lines[s.line], 0, s.ch);
    SliceNoNewline(lines[e.line], e.ch, |lines[e.line]|);
    var mid := Split(pre + t + suf);
    var r := lines[..s.line] + mid + lines[e.line + 1..];
    assert forall i :: 0 <= i < |r| ==> NL !in r[i] by {
      forall i | 0 <= i < |r| ensures NL !in r[i] {
        if i < s.line {
          assert r[i] == lines[i];
        } else if i < s.line + |mid| {
          assert r[i] == mid[i - s.line];
        } else {
          assert r[i] == lines[i - s.line - |mid| + e.line + 1];
        }
      }
    }
    r
  }

  /**
   * `replaceRange(t, from, to)`: both positions are clipped to the document and
   * put in order, and the text between them becomes `t`.
   */
  function Replaced(lines: seq<Text>, t: Text, from: Pos, to: Pos): (r: seq<Text>)
    requires IsDocument(lines)
    ensures IsDocument(r)
  {
    var a := Clip(lines, from);
    var b := Clip(lines, to);
    var s := if Before(a, b) then a else b;
    var e := if Before(a, b) then b else a;
    Splice(lines, s, e, t)
  }

  /** `replaceRange(t, p)`: insertion. */
  function Insert(lines: seq<Text>, t: Text, p: Pos): (r: seq<Text>)
    requires IsDocument(lines)
    ensures IsDocument(r)
  {
    Replaced(lines, t, p, p)
  }

  /** The text between two positions, as `getRange` and `getSelection` give it. */
  function TextInRange(lines: seq<Text>, from: Pos, to: Pos): Text
    requires ValidPos(lines, from) && ValidPos(lines, to) && Before(from, to)
  {
    if from.line == to.line then lines[from.line][from.ch..to.ch]
    else Join([lines[from.line][from.ch..]] + lines[from.line + 1..to.line] + [lines[to.line][..to.ch]])
  }

  /** The end of `t` inserted after a line prefix `pre` at `from` is the end of `pre + t`'s last piece. */
  lemma EndPosLayout(from: Pos, pre: Text, t: Text)
    requires NL !in pre && |pre| == from.ch
    ensures var a := Split(pre + t);
      && |a| == |Split(t)|
      && EndPos(from, t) == Pos(from.line + |a| - 1, |Last(a)|)
      && (|a| == 1 ==> Last(a) == pre + t)
      && (|a| > 1 ==> a == [pre + Split(t)[0]] + Split(t)[1..])
  {
    SplitPrepend(pre, t);
    if |Split(t)| == 1 {
      SplitNoNewlineOfSingle(t);
      SplitNoNewlineOfSingle(pre + t);
    }
  }

  /**
   * The shape of a replacement between valid ordered positions: the lines before
   * `from` and after `to` are kept, and in between stand the pieces of
   * `pre + t` with the rest of `to`'s line glued to the last one.
   */
  lemma ReplacedLayout(lines: seq<Text>, t: Text, from: Pos, to: Pos)
    requires IsDocument(lines) && ValidPos(lines, from) && ValidPos(lines, to) && Before(from, to)
    ensures var a := Split(lines[from.line][..from.ch] + t);
      Replaced(lines, t, from, to)
        == lines[..from.line] + a[..|a| - 1] + [Last(a) + lines[to.line][to.ch..]] + lines[to.line + 1..]
  {
    SliceNoNewline(lines[to.line], to.ch, |lines[to.line]|);
    SplitFrame(lines[from.line][..from.ch], t, lines[to.line][to.ch..]);
  }

  /** Indexing into the layout a replacement produces. */
  lemma LayoutFacts(lines: seq<Text>, r: seq<Text>, L: nat, T: nat, a: seq<Text>, suf: Text)
    requires L <= T < |lines| && |a| >= 1
    requires r == lines[..L] + a[..|a| - 1] + [Last(a) + suf] + lines[T + 1..]
    ensures |r| == L + |a| + |lines| - T - 1
    ensures r[..L] == lines[..L]
    ensures forall i :: 0 <= i < |a| - 1 ==> r[L + i] == a[i]
    ensures r[L + |a| - 1] == Last(a) + suf
    ensures r[L + |a|..] == lines[T + 1..]
    ensures |a| >= 2 ==> r[L + 1..L + |a| - 1] == a[1..|a| - 1]
    ensures r[..L + |a| - 1] == lines[..L] + a[..|a| - 1]
  {
  }

  /**
   * `replaceRange(t, from, to)` between valid ordered positions puts exactly `t`
   * between `from` and `EndPos(from, t)`, keeps everything before `from`, and
   * what followed `to` now follows `EndPos(from, t)`.
   */
  lemma ReplacedSpec(lines: seq<Text>, t: Text, from: Pos, to: Pos)
    requires IsDocument(lines) && ValidPos(lines, from) && ValidPos(lines, to) && Before(from, to)
    ensures ValidPos(Replaced(lines, t, from, to), EndPos(from, t)) && Before(from, EndPos(from, t))
    ensures Replaced(lines, t, from, to)[..from.line] == lines[..from.line]
    ensures |Replaced(lines, t, from, to)[from.line]| >= from.ch
    ensures Replaced(lines, t, from, to)[from.line][..from.ch] == lines[from.line][..from.ch]
    ensures TextInRange(Replaced(lines, t, from, to), from, EndPos(from, t)) == t
    ensures Replaced(lines, t, from, to)[EndPos(from, t).line][EndPos(from, t).ch..] == lines[to.line][to.ch..]
    ensures Replaced(lines, t, from, to)[EndPos(from, t).line + 1..] == lines[to.line + 1..]
    ensures |Replaced(lines, t, from, to)| == |lines| - (to.line - from.line) + Count(t, NL)
  {
    ReplacedSpecAt(lines, t, from, to, Replaced(lines, t, from, to), EndPos(from, t));
  }

  /** `ReplacedSpec` with the new document `r` and the end `e` of the text named. */
  lemma ReplacedSpecAt(lines: seq<Text>, t: Text, from: Pos, to: Pos, r: seq<Text>, e: Pos)
    requires IsDocument(lines) && ValidPos(lines, from) && ValidPos(lines, to) && Before(from, to)
    requires r == Replaced(lines, t, from, to) && e == EndPos(from, t)
    ensures ValidPos(r, e) && Before(from, e)
    ensures r[..from.line] == lines[..from.line]
    ensures |r[from.line]| >= from.ch
    ensures r[from.line][..from.ch] == lines[from.line][..from.ch]
    ensures TextInRange(r, from, e) == t
    ensures r[e.line][e.ch..] == lines[to.line][to.ch..]
    ensures r[e.line + 1..] == lines[to.line + 1..]
    ensures |r| == |lines| - (to.line - from.line) + Count(t, NL)
  {
    var pre := lines[from.line][..from.ch];
    var suf := lines[to.line][to.ch..];
    var x := Split(t);
    var a := Split(pre + t);
    assert r == lines[..from.line] + a[..|a| - 1] + [Last(a) + suf] + lines[to.line + 1..] by {
      ReplacedLayout(lines, t, from, to);
    }
    assert && |a| == |x|
           && EndPos(from, t) == Pos(from.line + |a| - 1, |Last(a)|)
           && (|a| == 1 ==> Last(a) == pre + t)
           && (|a| > 1 ==> a == [pre + x[0]] + x[1..]) by {
      SliceNoNewline(lines[from.line], 0, from.ch);
      EndPosLayout(from, pre, t);
    }
    assert Join(x) == t by {
      JoinSplit(t);
    }
    LayoutSpec(lines, r, from, to, t, e, pre, suf, a, x);
  }

  /** `ReplacedSpec` for a layout given by its pieces `a` of `pre + t` and `x` of `t`. */
  lemma LayoutSpec(lines: seq<Text>, r: seq<Text>, from: Pos, to: Pos, t: Text, e: Pos,
                   pre: Text, suf: Text, a: seq<Text>, x: seq<Text>)
    requires ValidPos(lines, from) && ValidPos(lines, to) && Before(from, to)
    requires pre == lines[from.line][..from.ch] && suf == lines[to.line][to.ch..]
    requires |a| == |x| == Count(t, NL) + 1 && Join(x) == t
    requires r == lines[..from.line] + a[..|a| - 1] + [Last(a) + suf] + lines[to.line + 1..]
    requires e == Pos(from.line + |a| - 1, |Last(a)|)
    requires |a| == 1 ==> Last(a) == pre + t
    requires |a| > 1 ==> a == [pre + x[0]] + x[1..]
    ensures ValidPos(r, e) && Before(from, e)
    ensures r[..from.line] == lines[..from.line]
    ensures |r[from.line]| >= from.ch
    ensures r[from.line][..from.ch] == lines[from.line][..from.ch]
    ensures TextInRange(r, from, e) == t
    ensures r[e.line][e.ch..] == lines[to.line][to.ch..]
    ensures r[e.line + 1..] == lines[to.line + 1..]
    ensures |r| == |lines| - (to.line - from.line) + Count(t, NL)
  {
    var L := from.line;
    LayoutFacts(lines, r, L, to.line, a, suf);
    if |a| == 1 {
      SpanOfOnePiece(r, from, e, pre, t, suf);
    } else {
      assert r[L + 0] == a[0];
      forall i | 0 < i < |x| - 1 ensures r[L + i] == x[i] {
        assert r[L + i] == a[i];
      }
      SpanOfManyPieces(r, from, e, pre, x, suf);
    }
  }

  /** Text inserted without a line break sits on one line between `pre` and `suf`. */
  lemma SpanOfOnePiece(r: seq<Text>, from: Pos, e: Pos, pre: Text, t: Text, suf: Text)
    requires |pre| == from.ch && e == Pos(from.line, from.ch + |t|)
    requires from.line < |r| && r[from.line] == pre + t + suf
    ensures ValidPos(r, e) && Before(from, e) && |r[from.line]| >= from.ch
    ensures r[from.line][..from.ch] == pre
    ensures TextInRange(r, from, e) == t
    ensures r[e.line][e.ch..] == suf
  {
    assert r[from.line][from.ch..from.ch + |t|] == t;
  }

  /** Text inserted with line breaks spans its pieces, `pre` before the first and `suf` after the last. */
  lemma SpanOfManyPieces(r: seq<Text>, from: Pos, e: Pos, pre: Text, x: seq<Text>, suf: Text)
    requires |x| > 1 && |pre| == from.ch
    requires e == Pos(from.line + |x| - 1, |x[|x| - 1]|)
    requires from.line + |x| <= |r|
    requires r[from.line] == pre + x[0]
    requires forall i :: 0 < i < |x| - 1 ==> r[from.line + i] == x[i]
    requires r[from.line + |x| - 1] == x[|x| - 1] + suf
    ensures ValidPos(r, e) && Before(from, e) && |r[from.line]| >= from.ch
    ensures r[from.line][..from.ch] == pre
    ensures TextInRange(r, from, e) == Join(x)
    ensures r[e.line][e.ch..] == suf
  {
    var k := |x| - 1;
    var L := from.line;
    assert r[L][..from.ch] == pre && r[L][from.ch..] == x[0] by {
      SplitConcat(pre, x[0], 0);
    }
    assert r[L + k][..e.ch] == x[k] && r[L + k][e.ch..] == suf by {
      SplitConcat(x[k], suf, 0);
      AppendEmpty(x[k]);
    }
    var mid := r[L + 1..L + k];
    assert mid == x[1..k] by {
      forall i | 0 <= i < k - 1 ensures mid[i] == x[1..k][i] {
        assert mid[i] == r[L + 1 + i];
      }
    }
    assert TextInRange(r, from, e) == Join([x[0]] + x[1..k] + [x[k]]);
    Unsnoc3(x);
  }

  /**
   * Inserting `x` at `p` and then `y` where `x` ended is the same as inserting
   * `x + y` at `p`: the end position tracks what the buffer does to positions.
   */
  lemma InsertCompose(lines: seq<Text>, x: Text, y: Text, p: Pos)
    requires IsDocument(lines) && ValidPos(lines, p)
    ensures Insert(Insert(lines, x, p), y, EndPos(p, x)) == Insert(lines, x + y, p)
  {
    var L := p.line;
    var pre := lines[L][..p.ch];
    var suf := lines[L][p.ch..];
    var a := Split(pre + x);
    var d := Split(pre + (x + y));
    InsertLayout(lines, x + y, p, pre, suf, d);
    InsertLayout(lines, x, p, pre, suf, a);
    var b1 := Insert(lines, x, p);
    var e := EndPos(p, x);
    LayoutFacts(lines, b1, L, L, a, suf);
    var c := Split(Last(a) + y);
    InsertLayout(b1, y, e, Last(a), suf, c);
    assert d == a[..|a| - 1] + c by {
      AppendAssoc(pre, x, y);
      SplitThenAppend(pre + x, y, a, c);
    }
    ComposeLayouts(lines, L, a, c, d, suf, b1, Insert(b1, y, e), Insert(lines, x + y, p), e.line);
  }

  /** `ReplacedLayout` and `EndPosLayout` for an insertion, with the pieces named. */
  lemma InsertLayout(lines: seq<Text>, t: Text, p: Pos, pre: Text, suf: Text, a: seq<Text>)
    requires IsDocument(lines) && ValidPos(lines, p)
    requires pre == lines[p.line][..p.ch] && suf == lines[p.line][p.ch..] && a == Split(pre + t)
    ensures Insert(lines, t, p) == lines[..p.line] + a[..|a| - 1] + [Last(a) + suf] + lines[p.line + 1..]
    ensures EndPos(p, t) == Pos(p.line + |a| - 1, |Last(a)|)
  {
    ReplacedLayout(lines, t, p, p);
    SliceNoNewline(lines[p.line], 0, p.ch);
    EndPosLayout(p, pre, t);
  }

  lemma SplitThenAppend(u: Text, y: Text, a: seq<Text>, c: seq<Text>)
    requires a == Split(u) && c == Split(Last(a) + y)
    ensures Split(u + y) == a[..|a| - 1] + c
  {
    SplitAppend(u, y);
  }

  /** The sequence algebra behind `InsertCompose`. */
  lemma ComposeLayouts(lines: seq<Text>, L: nat, a: seq<Text>, c: seq<Text>, d: seq<Text>, suf: Text,
                       b1: seq<Text>, b2: seq<Text>, target: seq<Text>, E: nat)
    requires L < |lines| && |a| >= 1 && |c| >= 1 && E == L + |a| - 1
    requires b1 == lines[..L] + a[..|a| - 1] + [Last(a) + suf] + lines[L + 1..]
    requires b2 == b1[..E] + c[..|c| - 1] + [Last(c) + suf] + b1[E + 1..]
    requires d == a[..|a| - 1] + c
    requires target == lines[..L] + d[..|d| - 1] + [Last(d) + suf] + lines[L + 1..]
    ensures b2 == target
  {
    LayoutFacts(lines, b1, L, L, a, suf);
    assert d[..|d| - 1] == a[..|a| - 1] + c[..|c| - 1];
  }

  /** Replacing part of one line by a line-break-free text changes only that line. */
  lemma ReplaceInLine(lines: seq<Text>, t: Text, L: nat, i: nat, j: nat)
    requires IsDocument(lines) && L < |lines| && i <= j <= |lines[L]| && NL !in t
    ensures Replaced(lines, t, Pos(L, i), Pos(L, j)) == lines[L := lines[L][..i] + t + lines[L][j..]]
  {
    var pre := lines[L][..i];
    var suf := lines[L][j..];
    ReplacedLayout(lines, t, Pos(L, i), Pos(L, j));
    assert NL !in pre + t by {
      SliceNoNewline(lines[L], 0, i);
    }
    SplitNoNewline(pre + t);
    UpdateAsConcat(lines, L, pre + t + suf);
  }

  lemma UpdateAsConcat<T>(s: seq<T>, i: nat, x: T)
    requires i < |s|
    ensures s[i := x] == s[..i] + [x] + s[i + 1..]
  {
  }

  /** The text between two positions depends only on the lines up to the second one, cut there. */
  lemma TextInRangeFrame(a: seq<Text>, b: seq<Text>, from: Pos, to: Pos)
    requires ValidPos(a, from) && ValidPos(a, to) && ValidPos(b, from) && ValidPos(b, to) && Before(from, to)
    requires a[..to.line] == b[..to.line] && a[to.line][..to.ch] == b[to.line][..to.ch]
    ensures TextInRange(a, from, to) == TextInRange(b, from, to)
  {
    if from.line == to.line {
      assert a[to.line][from.ch..to.ch] == a[to.line][..to.ch][from.ch..];
      assert b[to.line][from.ch..to.ch] == b[to.line][..to.ch][from.ch..];
    } else {
      assert a[from.line] == a[..to.line][from.line] && b[from.line] == b[..to.line][from.line];
      assert a[from.line + 1..to.line] == a[..to.line][from.line + 1..];
      assert b[from.line + 1..to.line] == b[..to.line][from.line + 1..];
    }
  }

  /** The editor: a document edited in place by `replaceRange`. */
  class Editor {
    var lines: seq<Text>

    ghost predicate Valid()
      reads this
    {
      IsDocument(lines)
    }

    constructor (initial: seq<Text>)
      requires IsDocument(initial)
      ensures Valid() && lines == initial
    {
      lines := initial;
    }

    method ReplaceRange(t: Text, from: Pos, to: Pos)
      requires Valid()
      modifies this
      ensures Valid()
      ensures lines == Replaced(old(lines), t, from, to)
    {
      lines := Replaced(lines, t, from, to);
    }
  }
}
