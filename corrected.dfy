/**
 * The editor command with the three corrections applied: the marker goes where
 * the user's turn ends, the reply is read with its unfinished last line kept
 * back across chunks, and each fragment goes where the text streamed so far
 * ends. The whole reply then lands after `"🤖 "` as one piece of text.
 */
module Corrected {
  import opened Wrappers
  import opened Utf16
  import opened Seqs
  import opened Buffer
  import opened Registry
  import opened Prompt
  import opened Stream
  import opened Engine

  /** Where the reply goes once the marker follows the user's turn: two lines down, after `"🤖 "`. */
  function AnchorAtEnd(from: Pos, formatted: Text): Pos {
    Pos(EndPos(from, formatted).line + 2, 3)
  }

  /** With nothing read, buffered reading yields nothing. */
  lemma NothingBuffered(decode: Text -> Parsed)
    ensures BufferedFragments([], decode) == [] && Concat([]) == []
  {
    assert Accept([], decode).None?;
    LineFragmentsSingle([], decode);
  }

  /**
   * The corrected command for `command` on the selection `from`..`to`: the
   * same request and the same ending as the command as written, but the note
   * ends up with the user's turn kept whole and the entire reply text inserted
   * after `"🤖 "`.
   */
  method RunCommandCorrected(editor: Editor, from: Pos, to: Pos, settings: Settings,
                             command: Command, reply: Reply, decode: Text -> Parsed)
      returns (request: Option<Request>, outcome: Outcome)
    requires editor.Valid()
    requires ValidPos(editor.lines, from) && ValidPos(editor.lines, to) && Before(from, to)
    modifies editor
    ensures editor.Valid()
    ensures var selection := TextInRange(old(editor.lines), from, to);
      if IsBlank(selection) then
        request == None && outcome == NoSelection && editor.lines == old(editor.lines)
      else
        var fs := BufferedFragments(Chunks(reply), decode);
        && request == Some(BuildRequest(settings.ollamaUrl, settings.defaultModel, command, selection))
        && editor.lines == Insert(MarkupAtEnd(old(editor.lines), from, to), Concat(fs), AnchorAtEnd(from, Formatted(selection)))
        && outcome == Ending(reply, Concat(fs))
  {
    var selection := TextInRange(editor.lines, from, to);
    TrimSpec(selection);
    if Trim(selection) == [] {
      return None, NoSelection;
    }
    ghost var marked := MarkupAtEnd(editor.lines, from, to);
    var anchor := WriteMarkupAtEnd(editor, from, to, selection);
    var out: Text := [];
    request := Some(BuildRequest(settings.ollamaUrl, settings.defaultModel, command, selection));
    ghost var fs := BufferedFragments(Chunks(reply), decode);
    StreamedTrackingSpec(marked, anchor, fs);
    NothingBuffered(decode);
    match reply {
      case FetchFailed =>
        return request, Failed(NetworkError, out);
      case Received(status, body, readFails) =>
        if !IsOk(status) {
          return request, Failed(HttpError(status), out);
        }
        if body.None? {
          return request, Failed(NoReader, out);
        }
    }
    out := StreamReplyBuffered(editor, anchor, reply.body.value, decode);
    outcome := if reply.readFails then Failed(ReadError, out) else Completed(out);
  }

  /**
   * Writes the user's turn over the selection, then the marker where the turn
   * ends; returns the response anchor, a valid position of the new document.
   */
  method WriteMarkupAtEnd(editor: Editor, from: Pos, to: Pos, selection: Text) returns (anchor: Pos)
    requires editor.Valid()
    requires ValidPos(editor.lines, from) && ValidPos(editor.lines, to) && Before(from, to)
    requires selection == TextInRange(editor.lines, from, to)
    modifies editor
    ensures editor.Valid()
    ensures editor.lines == MarkupAtEnd(old(editor.lines), from, to)
    ensures anchor == AnchorAtEnd(from, Formatted(selection)) && ValidPos(editor.lines, anchor)
  {
    ghost var lines := editor.lines;
    MarkupAtEndSpec(lines, from, to);
    var formatted := PERSON + Trim(selection);
    assert formatted == Formatted(selection);
    editor.ReplaceRange(formatted, from, to);
    var markerPos := EndPos(from, formatted);
    editor.ReplaceRange(MARKER, markerPos, markerPos);
    anchor := Pos(markerPos.line + 2, 3);
  }

  /**
   * The buffered read loop: each chunk is appended to the line held back so
   * far, its complete lines are handled, and its last piece is held back; the
   * held-back line is handled once the stream ends.
   */
  method StreamReplyBuffered(editor: Editor, anchor: Pos, chunks: seq<Text>, decode: Text -> Parsed) returns (out: Text)
    requires editor.Valid()
    modifies editor
    ensures editor.Valid()
    ensures out == Concat(BufferedFragments(chunks, decode))
    ensures editor.lines == StreamedTracking(old(editor.lines), anchor, BufferedFragments(chunks, decode))
  {
    ghost var marked := editor.lines;
    var pending: Text := [];
    ghost var fs: seq<Text> := [];
    out := [];
    var i := 0;
    assert chunks[..0] == [];
    while i < |chunks|
      invariant 0 <= i <= |chunks|
      invariant editor.Valid() && IsDocument(marked)
      invariant Buffered(chunks[..i], decode) == Carry(pending, fs)
      invariant out == Concat(fs)
      invariant editor.lines == StreamedTracking(marked, anchor, fs)
    {
      var pieces := Split(pending + chunks[i]);
      var complete := pieces[..|pieces| - 1];
      out := StreamLines(editor, marked, anchor, fs, out, complete, decode);
      BufferedStep(chunks, i, decode);
      fs := fs + LineFragments(complete, decode);
      pending := Last(pieces);
      i := i + 1;
    }
    assert chunks[..|chunks|] == chunks;
    out := StreamLines(editor, marked, anchor, fs, out, [pending], decode);
  }

  /** One more chunk read with buffering. */
  lemma {:induction false} BufferedStep(chunks: seq<Text>, i: nat, decode: Text -> Parsed)
    requires i < |chunks|
    ensures Buffered(chunks[..i + 1], decode) == BufferStep(Buffered(chunks[..i], decode), chunks[i], decode)
  {
    assert chunks[..i + 1][..i] == chunks[..i];
  }

  /** Complete lines, each line's fragment inserted where the streamed text ends. */
  method StreamLines(editor: Editor, ghost marked: seq<Text>, anchor: Pos, ghost before: seq<Text>,
                     out0: Text, lines: seq<Text>, decode: Text -> Parsed) returns (out: Text)
    requires editor.Valid() && IsDocument(marked)
    requires out0 == Concat(before)
    requires editor.lines == StreamedTracking(marked, anchor, before)
    modifies editor
    ensures editor.Valid()
    ensures out == Concat(before + LineFragments(lines, decode))
    ensures editor.lines == StreamedTracking(marked, anchor, before + LineFragments(lines, decode))
  {
    out := out0;
    var j := 0;
    ghost var fs := before;
    assert lines[..0] == [];
    AppendEmpty(before);
    while j < |lines|
      invariant 0 <= j <= |lines|
      invariant editor.Valid()
      invariant fs == before + LineFragments(lines[..j], decode)
      invariant out == Concat(fs)
      invariant editor.lines == StreamedTracking(marked, anchor, fs)
    {
      LineStep(lines, j, decode);
      AppendAssoc(before, LineFragments(lines[..j], decode), Yield(lines[j], decode));
      out := WriteLineTracking(editor, marked, anchor, fs, out, lines[j], decode);
      fs := fs + Yield(lines[j], decode);
      j := j + 1;
    }
    assert lines[..|lines|] == lines;
  }

  /** One line: its fragment, if it yields one, is written where the streamed text ends. */
  method WriteLineTracking(editor: Editor, ghost marked: seq<Text>, anchor: Pos, ghost fs: seq<Text>,
                           out0: Text, line: Text, decode: Text -> Parsed) returns (out: Text)
    requires editor.Valid() && IsDocument(marked)
    requires out0 == Concat(fs) && editor.lines == StreamedTracking(marked, anchor, fs)
    modifies editor
    ensures editor.Valid()
    ensures out == Concat(fs + Yield(line, decode))
    ensures editor.lines == StreamedTracking(marked, anchor, fs + Yield(line, decode))
  {
    var accepted := Accept(line, decode);
    if accepted.Some? {
      out := WriteFragmentTracking(editor, marked, anchor, fs, out0, accepted.value);
    } else {
      out := out0;
      AppendEmpty(fs);
    }
  }

  /** Inserts one fragment at the end of the text streamed so far and appends it to `out`. */
  method WriteFragmentTracking(editor: Editor, ghost marked: seq<Text>, anchor: Pos, ghost fs: seq<Text>,
                               out0: Text, fragment: Text) returns (out: Text)
    requires editor.Valid() && IsDocument(marked)
    requires out0 == Concat(fs) && editor.lines == StreamedTracking(marked, anchor, fs)
    modifies editor
    ensures editor.Valid()
    ensures out == Concat(fs + [fragment])
    ensures editor.lines == StreamedTracking(marked, anchor, fs + [fragment])
  {
    var insertPos := EndPos(anchor, out0);
    TrackingSnoc(marked, anchor, fs, fragment);
    ConcatAppend(fs, [fragment]);
    ConcatSingle(fragment);
    editor.ReplaceRange(fragment, insertPos, insertPos);
    out := out0 + fragment;
  }
}
