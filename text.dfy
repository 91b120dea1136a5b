/** Small wrapper datatypes shared by the other modules. */
module Wrappers {
  datatype Option<+T> = None | Some(value: T)

  datatype Result<+T, +E> = Success(value: T) | Failure(error: E)
}

/** Sequence algebra the text and document proofs share. */
module Seqs {
  lemma AppendEmpty<T>(a: seq<T>)
    ensures a + [] == a
  {
  }

  lemma AppendAssoc<T>(a: seq<T>, b: seq<T>, c: seq<T>)
    ensures a + b + c == a + (b + c)
  {
  }

  lemma AppendEmptyFront<T>(a: seq<T>)
    ensures [] + a == a
  {
  }

  /** A non-empty sequence is its init followed by its last element. */
  lemma DropLast<T>(s: seq<T>)
    requires s != []
    ensures s[..|s| - 1] + [s[|s| - 1]] == s
  {
  }

  /** A sequence of at least two elements is its first, its middle and its last. */
  lemma Unsnoc3<T>(x: seq<T>)
    requires |x| > 1
    ensures [x[0]] + x[1..|x| - 1] + [x[|x| - 1]] == x
  {
  }

  /** The init and the last element of `a + [x]`. */
  lemma SnocParts<T>(a: seq<T>, x: T)
    ensures (a + [x])[..|a + [x]| - 1] == a && (a + [x])[|a + [x]| - 1] == x
  {
  }

  /** Dropping the last element and putting it back in front of `rest`. */
  lemma LastThen<T>(a: seq<T>, x: T, rest: seq<T>)
    requires a != [] && x == a[|a| - 1]
    ensures a[..|a| - 1] + ([x] + rest) == a + rest
  {
    DropLast(a);
    AppendAssoc(a[..|a| - 1], [x], rest);
  }

  /** The last element of `a + b` and what comes before it, for a non-empty `b`. */
  lemma DropLastAppend<T>(a: seq<T>, b: seq<T>)
    requires b != []
    ensures (a + b)[..|a + b| - 1] == a + b[..|b| - 1]
    ensures (a + b)[|a + b| - 1] == b[|b| - 1]
  {
  }

  /** Cutting `a + b` inside `b`. */
  lemma SplitConcat<T>(a: seq<T>, b: seq<T>, n: nat)
    requires n <= |b|
    ensures (a + b)[..|a| + n] == a + b[..n]
    ensures (a + b)[|a| + n..] == b[n..]
  {
  }

  /** Sequence algebra for a new first element. */
  lemma PushFront<T>(h: T, s: seq<T>, tail: seq<T>)
    requires |s| >= 1
    ensures [h] + (s[..|s| - 1] + tail) == ([h] + s)[..|s|] + tail
    ensures ([h] + s)[|s|] == s[|s| - 1]
  {
  }

  /** Sequence algebra for a first element that is replaced. */
  lemma PushOnFirst<T>(h: T, s: seq<T>, tail: seq<T>)
    requires |s| >= 2
    ensures (s[..|s| - 1] + tail)[0] == s[0]
    ensures [h] + (s[..|s| - 1] + tail)[1..] == ([h] + s[1..])[..|s| - 1] + tail
    ensures ([h] + s[1..])[|s| - 1] == s[|s| - 1]
  {
  }
}

/**
 * JavaScript strings as the plugin sees them: sequences of UTF-16 code units.
 * String lengths and editor columns both count code units, so an emoji outside
 * the Basic Multilingual Plane (a surrogate pair) has length 2.
 */
module Utf16 {
  import opened Seqs

  type CodeUnit = x: int | 0 <= x < 0x1_0000
  type Text = seq<CodeUnit>

  const NL: CodeUnit := 0x0A
  const CR: CodeUnit := 0x0D
  const SPACE: CodeUnit := 0x20

  /** The code units `String.prototype.trim` removes: WhiteSpace and LineTerminator of ECMAScript. */
  predicate IsWhitespace(u: CodeUnit) {
    u == 0x09 || u == 0x0A || u == 0x0B || u == 0x0C || u == 0x0D || u == 0x20
    || u == 0xA0 || u == 0x1680 || (0x2000 <= u <= 0x200A) || u == 0x2028 || u == 0x2029
    || u == 0x202F || u == 0x205F || u == 0x3000 || u == 0xFEFF
  }

  predicate IsBlank(t: Text) {
    forall i :: 0 <= i < |t| ==> IsWhitespace(t[i])
  }

  /** Number of occurrences of `u` in `t`. */
  function Count(t: Text, u: CodeUnit): nat {
    if t == [] then 0 else (if t[0] == u then 1 else 0) + Count(t[1..], u)
  }

  lemma {:induction false} CountAppend(a: Text, b: Text, u: CodeUnit)
    ensures Count(a + b, u) == Count(a, u) + Count(b, u)
  {
    if a != [] {
      assert (a + b)[0] == a[0];
      assert (a + b)[1..] == a[1..] + b;
      assert Count(a + b, u) == (if a[0] == u then 1 else 0) + Count(a[1..] + b, u);
      CountAppend(a[1..], b, u);
    } else {
      assert a + b == b;
    }
  }

  lemma {:induction false} CountAbsent(t: Text, u: CodeUnit)
    ensures u !in t <==> Count(t, u) == 0
  {
    if t != [] {
      CountAbsent(t[1..], u);
      assert t == [t[0]] + t[1..];
    }
  }

  // ---------------------------------------------------------------------------
  // trim

  /** Length of the leading run of whitespace. */
  function LeadingWhitespace(t: Text): (k: nat)
    ensures k <= |t|
    ensures forall i :: 0 <= i < k ==> IsWhitespace(t[i])
    ensures k < |t| ==> !IsWhitespace(t[k])
  {
    if t != [] && IsWhitespace(t[0]) then 1 + LeadingWhitespace(t[1..]) else 0
  }

  /** Start of the trailing run of whitespace. */
  function TrailingWhitespace(t: Text): (k: nat)
    ensures k <= |t|
    ensures forall i :: k <= i < |t| ==> IsWhitespace(t[i])
    ensures 0 < k ==> !IsWhitespace(t[k - 1])
  {
    if t != [] && IsWhitespace(t[|t| - 1]) then TrailingWhitespace(t[..|t| - 1]) else |t|
  }

  /** `String.prototype.trim`. */
  function Trim(t: Text): Text {
    var s := t[LeadingWhitespace(t)..];
    s[..TrailingWhitespace(s)]
  }

  /**
   * Trim keeps a contiguous slice of its input, cuts only whitespace, and the
   * slice neither starts nor ends with whitespace; it is empty exactly when the
   * input is blank.
   */
  lemma TrimSpec(t: Text)
    ensures var r := Trim(t);
      exists i, j :: 0 <= i <= j <= |t| && r == t[i..j]
        && (forall k :: 0 <= k < i ==> IsWhitespace(t[k]))
        && (forall k :: j <= k < |t| ==> IsWhitespace(t[k]))
    ensures Trim(t) != [] ==> !IsWhitespace(Trim(t)[0]) && !IsWhitespace(Trim(t)[|Trim(t)| - 1])
    ensures Trim(t) == [] <==> IsBlank(t)
  {
    var i := LeadingWhitespace(t);
    var s := t[i..];
    var j := TrailingWhitespace(s);
    assert Trim(t) == t[i..i + j];
  }

  lemma TrimIdempotent(t: Text)
    ensures Trim(Trim(t)) == Trim(t)
  {
    var r := Trim(t);
    TrimSpec(t);
    assert LeadingWhitespace(r) == 0;
    assert TrailingWhitespace(r) == |r|;
  }

  // ---------------------------------------------------------------------------
  // split / join on '\n'

  /** `s.split('\n')`: the pieces between line breaks, empty pieces kept. */
  function Split(t: Text): (r: seq<Text>)
    ensures |r| == Count(t, NL) + 1
    ensures forall i :: 0 <= i < |r| ==> NL !in r[i]
  {
    if t == [] then [[]]
    else
      var rest := Split(t[1..]);
      if t[0] == NL then [[]] + rest
      else [[t[0]] + rest[0]] + rest[1..]
  }

  function Last(s: seq<Text>): Text
    requires s != []
  {
    s[|s| - 1]
  }

  /** `pieces.join('\n')`. */
  function Join(pieces: seq<Text>): Text {
    if |pieces| <= 1 then (if pieces == [] then [] else pieces[0])
    else pieces[0] + [NL] + Join(pieces[1..])
  }

  lemma {:induction false} SplitNoNewline(t: Text)
    requires NL !in t
    ensures Split(t) == [t]
  {
    if t != [] {
      SplitNoNewline(t[1..]);
      assert [t[0]] + t[1..] == t;
    }
  }

  /** A prefix without line breaks joins the first piece. */
  lemma {:induction false} SplitPrepend(pre: Text, t: Text)
    requires NL !in pre
    ensures Split(pre + t) == [pre + Split(t)[0]] + Split(t)[1..]
  {
    if pre != [] {
      assert (pre + t)[0] == pre[0] && pre[0] != NL;
      assert (pre + t)[1..] == pre[1..] + t;
      SplitPrepend(pre[1..], t);
      var rest := Split(pre[1..] + t);
      assert Split(pre + t) == [[pre[0]] + rest[0]] + rest[1..];
      assert rest[1..] == Split(t)[1..];
      assert [pre[0]] + (pre[1..] + Split(t)[0]) == pre + Split(t)[0];
    } else {
      assert pre + t == t && pre + Split(t)[0] == Split(t)[0];
    }
  }

  /**
   * Splitting a concatenation: every piece of `x` but its last is final; the last
   * piece of `x` continues into `y`.
   */
  lemma {:induction false} SplitAppend(x: Text, y: Text)
    ensures Split(x + y) == Split(x)[..|Split(x)| - 1] + Split(Last(Split(x)) + y)
  {
    if x == [] {
      assert x + y == y;
    } else if |Split(x)| == 1 {
      SplitNoNewlineOfSingle(x);
    } else {
      var c, x' := x[0], x[1..];
      assert x == [c] + x';
      assert x + y == [c] + (x' + y);
      SplitAppend(x', y);
      var sx' := Split(x');
      var tail := Split(Last(sx') + y);
      if c == NL {
        SplitConsNewline(x');
        SplitConsNewline(x' + y);
        PushFront([], sx', tail);
      } else {
        SplitConsOther(c, x');
        SplitConsOther(c, x' + y);
        PushOnFirst([c] + sx'[0], sx', tail);
      }
    }
  }

  lemma SplitConsNewline(t: Text)
    ensures Split([NL] + t) == [[]] + Split(t)
  {
    assert ([NL] + t)[0] == NL && ([NL] + t)[1..] == t;
  }

  lemma SplitConsOther(c: CodeUnit, t: Text)
    requires c != NL
    ensures Split([c] + t) == [[c] + Split(t)[0]] + Split(t)[1..]
  {
    assert ([c] + t)[0] == c && ([c] + t)[1..] == t;
  }

  /** A text whose split has one piece is that piece. */
  lemma {:induction false} SplitNoNewlineOfSingle(t: Text)
    requires |Split(t)| == 1
    ensures Split(t) == [t]
  {
    CountAbsent(t, NL);
    SplitNoNewline(t);
  }

  /** A slice of a text without line breaks has none. */
  lemma SliceNoNewline(t: Text, i: nat, j: nat)
    requires NL !in t && i <= j <= |t|
    ensures NL !in t[i..j]
  {
    assert forall k :: 0 <= k < j - i ==> t[i..j][k] == t[i + k];
  }

  /**
   * Framing a text between two line-break-free texts: the pieces of `pre + t`
   * stay, and `suf` is glued to the last one.
   */
  lemma SplitFrame(pre: Text, t: Text, suf: Text)
    requires NL !in suf
    ensures var a := Split(pre + t);
      Split(pre + t + suf) == a[..|a| - 1] + [Last(a) + suf]
  {
    var a := Split(pre + t);
    SplitAppend(pre + t, suf);
    SplitNoNewline(Last(a) + suf);
  }

  /** Joining the pieces of a split gives back the text. */
  lemma {:induction false} JoinSplit(t: Text)
    ensures Join(Split(t)) == t
  {
    if t != [] {
      var rest := Split(t[1..]);
      JoinSplit(t[1..]);
      if t[0] == NL {
        assert Join([[]] + rest) == [NL] + Join(rest) by {
          assert ([[]] + rest)[1..] == rest;
        }
        assert [NL] + t[1..] == t;
      } else {
        var r := [[t[0]] + rest[0]] + rest[1..];
        if |rest| == 1 {
          assert Join(r) == [t[0]] + rest[0];
        } else {
          assert r[1..] == rest[1..];
          assert Join(rest) == rest[0] + [NL] + Join(rest[1..]);
        }
        assert [t[0]] + t[1..] == t;
      }
    }
  }

  /** Splitting the join of line-break-free pieces gives back the pieces. */
  lemma {:induction false} SplitJoin(pieces: seq<Text>)
    requires |pieces| >= 1
    requires forall i :: 0 <= i < |pieces| ==> NL !in pieces[i]
    ensures Split(Join(pieces)) == pieces
  {
    if |pieces| == 1 {
      SplitNoNewline(pieces[0]);
    } else {
      SplitJoin(pieces[1..]);
      assert Join(pieces) == pieces[0] + ([NL] + Join(pieces[1..]));
      SplitPrepend(pieces[0], [NL] + Join(pieces[1..]));
      assert ([NL] + Join(pieces[1..]))[1..] == Join(pieces[1..]);
      assert Split([NL] + Join(pieces[1..])) == [[]] + pieces[1..];
      assert pieces[0] + [] == pieces[0];
    }
  }
}
