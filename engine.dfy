/**
 * The editor command each registered prompt becomes: the selection is marked
 * up as the user's turn, a marker opens the assistant's turn, the request is
 * built, and the streamed reply is written after the marker as it arrives.
 */
module Engine {
  import opened Wrappers
  import opened Utf16
  import opened Seqs
  import opened Buffer
  import opened Registry
  import opened Prompt
  import opened Stream

  /** `"👤 "`. */
  const PERSON: Text := [0xD83D, 0xDC64, SPACE]

  /** `"🤖 "`: the three code units the response anchor follows. */
  const ROBOT: Text := [0xD83E, 0xDD16, SPACE]

  /** `"\n\n🤖 "`: a blank line, then the assistant's turn. */
  const MARKER: Text := [NL, NL] + ROBOT

  /** What the server's reply looked like to the engine. */
  datatype Reply =
    | FetchFailed
    | Received(status: int, body: Option<seq<Text>>, readFails: bool)

  /** Why the command stopped early; each is shown as an error notice. */
  datatype Failure = NetworkError | HttpError(status: int) | NoReader | ReadError

  datatype Outcome =
    | NoSelection
    | Failed(failure: Failure, streamed: Text)
    | Completed(streamed: Text)

  /** `response.ok`. */
  predicate IsOk(status: int) {
    200 <= status <= 299
  }

  /** The user's turn as written back into the note. */
  function Formatted(selection: Text): Text {
    PERSON + Trim(selection)
  }

  /**
   * Where the marker goes, as written: one line down per line break of the
   * inserted text, and the column is the length of its last line, whatever
   * column the selection started at.
   */
  function MarkerPos(from: Pos, formatted: Text): (r: Pos)
    ensures r.line == from.line + Count(formatted, NL)
    ensures NL in formatted ==> r == EndPos(from, formatted)
    ensures NL !in formatted ==> r == Pos(from.line, |formatted|)
  {
    var pieces := Split(formatted);
    CountAbsent(formatted, NL);
    assert NL !in formatted ==> pieces == [formatted] by {
      if NL !in formatted {
        SplitNoNewline(formatted);
      }
    }
    Pos(from.line + |pieces| - 1, |pieces[|pieces| - 1]|)
  }

  /** The document after the user's turn and the marker were written. */
  function Markup(lines: seq<Text>, from: Pos, to: Pos): (r: seq<Text>)
    requires IsDocument(lines) && ValidPos(lines, from) && ValidPos(lines, to) && Before(from, to)
    ensures IsDocument(r)
  {
    var formatted := Formatted(TextInRange(lines, from, to));
    Insert(Replaced(lines, formatted, from, to), MARKER, MarkerPos(from, formatted))
  }

  /** Where the reply is written: two lines below the marker position, after `"🤖 "`. */
  function Anchor(from: Pos, formatted: Text): Pos {
    Pos(MarkerPos(from, formatted).line + 2, 3)
  }

  /** The chunks the read loop gets: none unless the reply is OK and has a body. */
  function Chunks(reply: Reply): seq<Text> {
    if reply.Received? && IsOk(reply.status) && reply.body.Some? then reply.body.value else []
  }

  /** How the command ends, given what was streamed. */
  function Ending(reply: Reply, streamed: Text): Outcome {
    match reply
    case FetchFailed => Failed(NetworkError, streamed)
    case Received(status, body, readFails) =>
      if !IsOk(status) then Failed(HttpError(status), streamed)
      else if body.None? then Failed(NoReader, streamed)
      else if readFails then Failed(ReadError, streamed)
      else Completed(streamed)
  }

  /**
   * The command completes exactly when the reply is OK, has a body and is read
   * to its end; every outcome reports what was streamed, and only a read
   * error can follow streamed text: the other failures stream nothing.
   */
  lemma OnlyReadErrorsFollowText(reply: Reply, decode: Text -> Parsed)
    ensures var fs := StreamFragments(Chunks(reply), decode);
      var o := Ending(reply, Concat(fs));
      && !o.NoSelection?
      && o.streamed == Concat(fs)
      && (o.Completed? <==> reply.Received? && IsOk(reply.status) && reply.body.Some? && !reply.readFails)
      && (o.Failed? && o.failure != ReadError ==> fs == [] && o.streamed == [])
  {
  }

  // ---------------------------------------------------------------------------
  // The marker and the anchor

  /**
   * The marker inserted at a valid position `m` ends the line there, adds an
   * empty line, and opens the next with `"🤖 "` followed by what stood after
   * `m`; it ends two lines down at column 3, where the reply is anchored.
   */
  lemma MarkerLayout(lines: seq<Text>, m: Pos)
    requires IsDocument(lines) && ValidPos(lines, m)
    ensures EndPos(m, MARKER) == Pos(m.line + 2, 3)
    ensures Insert(lines, MARKER, m)
      == lines[..m.line] + [lines[m.line][..m.ch], [], ROBOT + lines[m.line][m.ch..]] + lines[m.line + 1..]
  {
    var pre := lines[m.line][..m.ch];
    var suf := lines[m.line][m.ch..];
    var a := [pre, [], ROBOT];
    assert Split(pre + MARKER) == a by {
      SliceNoNewline(lines[m.line], 0, m.ch);
      SplitNoNewline(pre);
      PromptLines(pre, ROBOT);
      assert pre + MARKER == pre + [NL, NL] + ROBOT;
    }
    InsertLayout(lines, MARKER, m, pre, suf, a);
    ThreePieces(pre, [], ROBOT, a, ROBOT + suf);
  }

  lemma ThreePieces<T>(x: T, y: T, z: T, a: seq<T>, w: T)
    requires a == [x, y, z]
    ensures a[..|a| - 1] + [w] == [x, y, w] && a[|a| - 1] == z
  {
  }

  /** The as-written marker position is a valid position of the document once the user's turn is written. */
  lemma MarkerPosValid(lines: seq<Text>, formatted: Text, from: Pos, to: Pos)
    requires IsDocument(lines) && ValidPos(lines, from) && ValidPos(lines, to) && Before(from, to)
    ensures ValidPos(Replaced(lines, formatted, from, to), MarkerPos(from, formatted))
  {
    ReplacedSpec(lines, formatted, from, to);
    if NL !in formatted {
      EndPosNoNewline(from, formatted);
    }
  }

  /**
   * After the markup, the reply anchor is where the marker ends; the lines
   * before the marker position are those after the user's turn was written,
   * the marker line is cut at the marker position, an empty line follows, and
   * the anchor line is `"🤖 "` followed by the rest of the marker line.
   */
  lemma MarkupAnchor(lines: seq<Text>, from: Pos, to: Pos)
    requires IsDocument(lines) && ValidPos(lines, from) && ValidPos(lines, to) && Before(from, to)
    ensures var formatted := Formatted(TextInRange(lines, from, to));
      var b := Replaced(lines, formatted, from, to);
      var m := MarkerPos(from, formatted);
      var anchor := Anchor(from, formatted);
      var r := Markup(lines, from, to);
      && ValidPos(b, m)
      && anchor == EndPos(m, MARKER)
      && ValidPos(r, anchor)
      && |r| == |b| + 2
      && r[..m.line] == b[..m.line]
      && r[m.line] == b[m.line][..m.ch]
      && r[m.line + 1] == []
      && r[anchor.line] == ROBOT + b[m.line][m.ch..]
      && r[anchor.line + 1..] == b[m.line + 1..]
  {
    var formatted := Formatted(TextInRange(lines, from, to));
    var b := Replaced(lines, formatted, from, to);
    var m := MarkerPos(from, formatted);
    MarkerPosValid(lines, formatted, from, to);
    MarkerLayout(b, m);
  }

  /**
   * When no fragment holds a line break, the anchor line ends up as `"🤖 "`,
   * then everything streamed, then what followed the marker position; no
   * other line changes.
   */
  lemma ReplyOnAnchorLine(lines: seq<Text>, from: Pos, to: Pos, fs: seq<Text>)
    requires IsDocument(lines) && ValidPos(lines, from) && ValidPos(lines, to) && Before(from, to)
    requires forall k :: 0 <= k < |fs| ==> NL !in fs[k]
    ensures var formatted := Formatted(TextInRange(lines, from, to));
      var b := Replaced(lines, formatted, from, to);
      var m := MarkerPos(from, formatted);
      var anchor := Anchor(from, formatted);
      var marked := Markup(lines, from, to);
      var r := Streamed(marked, anchor, fs);
      && ValidPos(b, m) && ValidPos(marked, anchor)
      && |r| == |marked|
      && r[anchor.line] == ROBOT + Concat(fs) + b[m.line][m.ch..]
      && forall i :: 0 <= i < |marked| && i != anchor.line ==> r[i] == marked[i]
  {
    var formatted := Formatted(TextInRange(lines, from, to));
    var anchor := Anchor(from, formatted);
    var marked := Markup(lines, from, to);
    MarkupAnchor(lines, from, to);
    StreamedAnchorLine(marked, anchor, fs);
    assert marked[anchor.line][..3] == ROBOT;
  }

  // ---------------------------------------------------------------------------
  // Finding: the marker column ignores where the selection started

  /**
   * The as-written marker position is the end of the user's turn exactly when
   * the selection starts at column 0 or its trimmed text spans several lines.
   */
  lemma MarkerPosIsEnd(from: Pos, trimmed: Text)
    ensures MarkerPos(from, PERSON + trimmed) == EndPos(from, PERSON + trimmed) <==> from.ch == 0 || NL in trimmed
  {
    var f := PERSON + trimmed;
    assert NL in f <==> NL in trimmed by {
      assert forall k :: 0 <= k < |trimmed| ==> f[k + 3] == trimmed[k];
      assert NL !in PERSON;
    }
    if NL !in f {
      EndPosNoNewline(from, f);
    }
  }

  /** The intended markup: the marker goes where the user's turn ends. */
  function MarkupAtEnd(lines: seq<Text>, from: Pos, to: Pos): (r: seq<Text>)
    requires IsDocument(lines) && ValidPos(lines, from) && ValidPos(lines, to) && Before(from, to)
    ensures IsDocument(r)
  {
    var formatted := Formatted(TextInRange(lines, from, to));
    Insert(Replaced(lines, formatted, from, to), MARKER, EndPos(from, formatted))
  }

  /**
   * With the marker at the end of the user's turn, the turn stays whole and
   * ends its line, an empty line follows, and the anchor line is `"🤖 "` and
   * then what followed the selection; later lines are kept.
   */
  lemma MarkupAtEndSpec(lines: seq<Text>, from: Pos, to: Pos)
    requires IsDocument(lines) && ValidPos(lines, from) && ValidPos(lines, to) && Before(from, to)
    ensures var formatted := Formatted(TextInRange(lines, from, to));
      var e := EndPos(from, formatted);
      var r := MarkupAtEnd(lines, from, to);
      && ValidPos(r, from) && ValidPos(r, e) && Before(from, e)
      && e.line + 2 < |r|
      && r[..from.line] == lines[..from.line]
      && r[from.line][..from.ch] == lines[from.line][..from.ch]
      && TextInRange(r, from, e) == formatted
      && |r[e.line]| == e.ch
      && r[e.line + 1] == []
      && r[e.line + 2] == ROBOT + lines[to.line][to.ch..]
      && r[e.line + 3..] == lines[to.line + 1..]
  {
    var formatted := Formatted(TextInRange(lines, from, to));
    var e := EndPos(from, formatted);
    var b := Replaced(lines, formatted, from, to);
    var r := MarkupAtEnd(lines, from, to);
    ReplacedSpec(lines, formatted, from, to);
    MarkerLayout(b, e);
    assert r[e.line][..e.ch] == b[e.line][..e.ch];
    TextInRangeFrame(b, r, from, e);
    assert r[..from.line] == b[..from.line] by {
      assert r[..e.line] == b[..e.line];
    }
    if from.line < e.line {
      var rp, bp := r[..e.line], b[..e.line];
      assert r[from.line] == rp[from.line] && b[from.line] == bp[from.line];
    } else {
      assert r[from.line][..from.ch] == b[e.line][..e.ch][..from.ch];
    }
  }

  /** Where the selection starts at column 0 or spans lines, the written and the intended markup agree. */
  lemma MarkupAgreesAtColumnZero(lines: seq<Text>, from: Pos, to: Pos)
    requires IsDocument(lines) && ValidPos(lines, from) && ValidPos(lines, to) && Before(from, to)
    requires from.ch == 0 || NL in Trim(TextInRange(lines, from, to))
    ensures Markup(lines, from, to) == MarkupAtEnd(lines, from, to)
  {
    MarkerPosIsEnd(from, Trim(TextInRange(lines, from, to)));
  }

  /**
   * A selection inside one line whose trimmed text has no line break, started
   * at column `i`: as written the marker cuts the line at column `|f|` of the
   * rewritten line, `i` columns before the user's turn ends; at the end of
   * the turn it would leave the turn whole.
   */
  lemma SingleLineMarkup(line: Text, i: nat, j: nat, f: Text, user: Text)
    requires NL !in line && i <= j <= |line|
    requires NL !in Trim(line[i..j])
    requires f == Formatted(line[i..j]) && user == line[..i] + f + line[j..]
    ensures |f| <= |user|
    ensures Markup([line], Pos(0, i), Pos(0, j)) == [user[..|f|], [], ROBOT + user[|f|..]]
    ensures MarkupAtEnd([line], Pos(0, i), Pos(0, j)) == [line[..i] + f, [], ROBOT + line[j..]]
  {
    SingleLineUser(line, i, j, f, user);
    EndPosNoNewline(Pos(0, i), f);
    MarkerInLine(user, |f|);
    MarkerInLine(user, i + |f|);
    assert user[..i + |f|] == line[..i] + f && user[i + |f|..] == line[j..];
  }

  /** Writing the user's turn over a selection inside one line. */
  lemma SingleLineUser(line: Text, i: nat, j: nat, f: Text, user: Text)
    requires NL !in line && i <= j <= |line|
    requires NL !in Trim(line[i..j])
    requires f == Formatted(line[i..j]) && user == line[..i] + f + line[j..]
    ensures TextInRange([line], Pos(0, i), Pos(0, j)) == line[i..j]
    ensures NL !in f && NL !in user
    ensures Replaced([line], f, Pos(0, i), Pos(0, j)) == [user]
  {
    assert NL !in f by {
      assert forall k :: 0 <= k < |f| - 3 ==> f[k + 3] == Trim(line[i..j])[k];
    }
    ReplaceInLine([line], f, 0, i, j);
    assert [line][0 := user] == [user];
  }

  /** The marker inserted into a document of one line without line breaks. */
  lemma MarkerInLine(line: Text, c: nat)
    requires NL !in line && c <= |line|
    ensures Insert([line], MARKER, Pos(0, c)) == [line[..c], [], ROBOT + line[c..]]
  {
    var mid: seq<Text> := [line[..c], [], ROBOT + line[c..]];
    MarkerLayout([line], Pos(0, c));
    assert [line][..0] == [] && [line][1..] == [];
    AppendEmptyFront(mid);
    AppendEmpty(mid);
  }

  /**
   * The line `ab` with `b` selected: as written the marker lands before the
   * `b` of the user's turn, which is moved behind `"🤖 "`; at the end of the
   * turn it would have left the turn whole.
   */
  lemma MarkerColumnCounterexample()
    ensures Markup([[0x61, 0x62]], Pos(0, 1), Pos(0, 2)) == [[0x61] + PERSON, [], ROBOT + [0x62]]
    ensures MarkupAtEnd([[0x61, 0x62]], Pos(0, 1), Pos(0, 2)) == [[0x61] + PERSON + [0x62], [], ROBOT]
  {
    var line: Text := [0x61, 0x62];
    var b: Text := [0x62];
    assert line[1..2] == b && line[..1] == [0x61] && line[2..] == [];
    assert Trim(b) == b by {
      assert LeadingWhitespace(b) == 0;
      assert TrailingWhitespace(b) == 1;
    }
    var f := PERSON + b;
    assert |f| == 4;
    var user := [0x61] + f;
    assert line[..1] + f + line[2..] == user;
    SingleLineMarkup(line, 1, 2, f, user);
    assert user[..4] == [0x61] + PERSON && user[4..] == b by {
      SplitConcat([0x61], f, 3);
      SplitConcat(PERSON, b, 0);
      AppendEmpty(PERSON);
    }
    assert line[..1] + f == [0x61] + PERSON + b by {
      AppendAssoc([0x61], PERSON, b);
    }
    AppendEmpty(ROBOT);
  }

  /**
   * A reply whose first fragment `"a\nb"` ends a line: as written, the next
   * fragment `"c"` is aimed at column 6 of the anchor line, which is clipped to
   * the end of `"🤖 a"`, so `"c"` lands on the line above where the stream
   * continues.
   */
  lemma {:induction false} StreamedNewlineCounterexample()
    ensures var fs: seq<Text> := [[0x61, NL, 0x62], [0x63]];
      && Streamed([ROBOT], Pos(0, 3), fs) == [ROBOT + [0x61, 0x63], [0x62]]
      && StreamedTracking([ROBOT], Pos(0, 3), fs) == [ROBOT + [0x61], [0x62, 0x63]]
  {
    assert [0x61] + [NL] + [0x62] == [0x61, NL, 0x62];
    BrokenFragment(ROBOT, [0x61], [0x62], [0x63]);
    assert ROBOT + [0x61] + [0x63] == ROBOT + [0x61, 0x63];
    assert [0x62] + [0x63] == [0x62, 0x63];
  }

  // ---------------------------------------------------------------------------
  // The command

  /**
   * The editor command for `command` on the selection `from`..`to`. The reply
   * to the request and the JSON decoder are parameters.
   */
  method RunCommand(editor: Editor, from: Pos, to: Pos, settings: Settings,
                    command: Command, reply: Reply, decode: Text -> Parsed)
      returns (request: Option<Request>, outcome: Outcome)
    requires editor.Valid()
    requires ValidPos(editor.lines, from) && ValidPos(editor.lines, to) && Before(from, to)
    modifies editor
    ensures editor.Valid()
    ensures var selection := TextInRange(old(editor.lines), from, to);
      if IsBlank(selection) then
        request == None && outcome == NoSelection && editor.lines == old(editor.lines)
      else
        var fs := StreamFragments(Chunks(reply), decode);
        && request == Some(BuildRequest(settings.ollamaUrl, settings.defaultModel, command, selection))
        && editor.lines == Streamed(Markup(old(editor.lines), from, to), Anchor(from, Formatted(selection)), fs)
        && outcome == Ending(reply, Concat(fs))
  {
    var selection := TextInRange(editor.lines, from, to);
    TrimSpec(selection);
    if Trim(selection) == [] {
      return None, NoSelection;
    }
    var anchor := WriteMarkup(editor, from, to, selection);
    var out: Text := [];
    request := Some(BuildRequest(settings.ollamaUrl, settings.defaultModel, command, selection));
    match reply {
      case FetchFailed =>
        return request, Failed(NetworkError, out);
      case Received(status, body, readFails) =>
        if !IsOk(status) {
          return request, Failed(HttpError(status), out);
        }
        if body.None? {
          return request, Failed(NoReader, out);
        }
    }
    out := StreamReply(editor, anchor, reply.body.value, decode);
    outcome := if reply.readFails then Failed(ReadError, out) else Completed(out);
  }

  /** Writes the user's turn over the selection, then the marker; returns the response anchor. */
  method WriteMarkup(editor: Editor, from: Pos, to: Pos, selection: Text) returns (anchor: Pos)
    requires editor.Valid()
    requires ValidPos(editor.lines, from) && ValidPos(editor.lines, to) && Before(from, to)
    requires selection == TextInRange(editor.lines, from, to)
    modifies editor
    ensures editor.Valid()
    ensures editor.lines == Markup(old(editor.lines), from, to)
    ensures anchor == Anchor(from, Formatted(selection))
  {
    var formatted := PERSON + Trim(selection);
    assert formatted == Formatted(selection);
    editor.ReplaceRange(formatted, from, to);
    ghost var withUser := editor.lines;
    var pieces := Split(formatted);
    var markerPos := Pos(from.line + |pieces| - 1, |pieces[|pieces| - 1]|);
    assert markerPos == MarkerPos(from, formatted);
    editor.ReplaceRange(MARKER, markerPos, markerPos);
    assert editor.lines == Insert(withUser, MARKER, markerPos);
    anchor := Pos(markerPos.line + 2, 3);
  }

  /** The read loop: every chunk in turn, the text streamed so far returned. */
  method StreamReply(editor: Editor, anchor: Pos, chunks: seq<Text>, decode: Text -> Parsed) returns (out: Text)
    requires editor.Valid()
    modifies editor
    ensures editor.Valid()
    ensures out == Concat(StreamFragments(chunks, decode))
    ensures editor.lines == Streamed(old(editor.lines), anchor, StreamFragments(chunks, decode))
  {
    ghost var marked := editor.lines;
    out := [];
    var i := 0;
    while i < |chunks|
      invariant 0 <= i <= |chunks|
      invariant editor.Valid() && IsDocument(marked)
      invariant out == Concat(StreamFragments(chunks[..i], decode))
      invariant editor.lines == Streamed(marked, anchor, StreamFragments(chunks[..i], decode))
    {
      out := StreamChunk(editor, marked, anchor, StreamFragments(chunks[..i], decode), out, chunks[i], decode);
      ChunkStep(chunks, i, decode);
      i := i + 1;
    }
    assert chunks[..|chunks|] == chunks;
  }

  /**
   * One chunk: it is split into lines on its own, and each line's fragment is
   * inserted `|out|` columns right of the anchor and appended to `out`.
   */
  method StreamChunk(editor: Editor, ghost marked: seq<Text>, anchor: Pos, ghost before: seq<Text>,
                     out0: Text, chunk: Text, decode: Text -> Parsed) returns (out: Text)
    requires editor.Valid() && IsDocument(marked)
    requires out0 == Concat(before)
    requires editor.lines == Streamed(marked, anchor, before)
    modifies editor
    ensures editor.Valid()
    ensures out == Concat(before + ChunkFragments(chunk, decode))
    ensures editor.lines == Streamed(marked, anchor, before + ChunkFragments(chunk, decode))
  {
    out := out0;
    var lines := Split(chunk);
    var j := 0;
    ghost var fs := before;
    assert lines[..0] == [];
    AppendEmpty(before);
    while j < |lines|
      invariant 0 <= j <= |lines|
      invariant editor.Valid()
      invariant fs == before + LineFragments(lines[..j], decode)
      invariant out == Concat(fs)
      invariant editor.lines == Streamed(marked, anchor, fs)
    {
      LineStep(lines, j, decode);
      AppendAssoc(before, LineFragments(lines[..j], decode), Yield(lines[j], decode));
      out := WriteLine(editor, marked, anchor, fs, out, lines[j], decode);
      fs := fs + Yield(lines[j], decode);
      j := j + 1;
    }
    assert lines[..|lines|] == lines;
  }

  /** One line of a chunk: its fragment, if it yields one, is written. */
  method WriteLine(editor: Editor, ghost marked: seq<Text>, anchor: Pos, ghost fs: seq<Text>,
                   out0: Text, line: Text, decode: Text -> Parsed) returns (out: Text)
    requires editor.Valid() && IsDocument(marked)
    requires out0 == Concat(fs) && editor.lines == Streamed(marked, anchor, fs)
    modifies editor
    ensures editor.Valid()
    ensures out == Concat(fs + Yield(line, decode))
    ensures editor.lines == Streamed(marked, anchor, fs + Yield(line, decode))
  {
    // blank lines, lines that do not parse and empty responses are skipped
    var accepted := Accept(line, decode);
    if accepted.Some? {
      out := WriteFragment(editor, marked, anchor, fs, out0, accepted.value);
    } else {
      out := out0;
      AppendEmpty(fs);
    }
  }

  /** Inserts one fragment `|out|` columns right of the anchor and appends it to `out`. */
  method WriteFragment(editor: Editor, ghost marked: seq<Text>, anchor: Pos, ghost fs: seq<Text>,
                       out0: Text, fragment: Text) returns (out: Text)
    requires editor.Valid() && IsDocument(marked)
    requires out0 == Concat(fs) && editor.lines == Streamed(marked, anchor, fs)
    modifies editor
    ensures editor.Valid()
    ensures out == Concat(fs + [fragment])
    ensures editor.lines == Streamed(marked, anchor, fs + [fragment])
  {
    var insertPos := WritePos(anchor, out0);
    StreamedSnoc(marked, anchor, fs, fragment, editor.lines, insertPos);
    ConcatAppend(fs, [fragment]);
    ConcatSingle(fragment);
    editor.ReplaceRange(fragment, insertPos, insertPos);
    out := out0 + fragment;
  }

  /** One more line in the inner loop. */
  lemma {:induction false} LineStep(lines: seq<Text>, j: nat, decode: Text -> Parsed)
    requires j < |lines|
    ensures LineFragments(lines[..j + 1], decode) == LineFragments(lines[..j], decode) + Yield(lines[j], decode)
  {
    assert lines[..j + 1][..j] == lines[..j];
  }

  /** One more chunk in the outer loop. */
  lemma {:induction false} ChunkStep(chunks: seq<Text>, i: nat, decode: Text -> Parsed)
    requires i < |chunks|
    ensures StreamFragments(chunks[..i + 1], decode) == StreamFragments(chunks[..i], decode) + ChunkFragments(chunks[i], decode)
  {
    assert chunks[..i + 1][..i] == chunks[..i];
  }
}
