/**
 * The text sent to Ollama: the selection is cleaned into a single line and
 * appended to the command's prompt template; model and temperature fall back
 * to defaults.
 */
module Prompt {
  import opened Wrappers
  import opened Utf16
  import opened Seqs
  import opened Registry

  /** `s.replace(/\r\n/g, '\n')`: pairs are matched left to right without overlap. */
  function ReplaceCRLF(s: Text): (r: Text)
    ensures |r| <= |s|
  {
    if |s| >= 2 && s[0] == CR && s[1] == NL then [NL] + ReplaceCRLF(s[2..])
    else if s == [] then []
    else [s[0]] + ReplaceCRLF(s[1..])
  }

  /** `t` with every occurrence of `u` deleted. */
  function Without(t: Text, u: CodeUnit): (r: Text)
    ensures u !in r
  {
    if t == [] then [] else (if t[0] == u then [] else [t[0]]) + Without(t[1..], u)
  }

  /** No carriage return of `s` is directly followed by a line break. */
  predicate NoCRLF(s: Text) {
    forall i :: 0 <= i < |s| - 1 ==> !(s[i] == CR && s[i + 1] == NL)
  }

  /**
   * Replacing `\r\n` only deletes carriage returns, each one right before a line
   * break: the line breaks and everything else are kept in order, and a text in
   * which no carriage return precedes a line break, such as `"a\rb"`, is kept
   * as it is, lone carriage returns included.
   */
  lemma {:induction false} ReplaceCRLFDeletesOnlyCR(s: Text)
    ensures Without(ReplaceCRLF(s), CR) == Without(s, CR)
    ensures Count(ReplaceCRLF(s), NL) == Count(s, NL)
    ensures NoCRLF(s) ==> ReplaceCRLF(s) == s
  {
    if |s| >= 2 && s[0] == CR && s[1] == NL {
      ReplaceCRLFDeletesOnlyCR(s[2..]);
      assert s[1..][1..] == s[2..];
      assert ([NL] + ReplaceCRLF(s[2..]))[1..] == ReplaceCRLF(s[2..]);
    } else if s != [] {
      ReplaceCRLFDeletesOnlyCR(s[1..]);
      assert ([s[0]] + ReplaceCRLF(s[1..]))[1..] == ReplaceCRLF(s[1..]);
      if NoCRLF(s) {
        assert NoCRLF(s[1..]) by {
          forall i | 0 <= i < |s[1..]| - 1 ensures !(s[1..][i] == CR && s[1..][i + 1] == NL) {
            assert s[1..][i] == s[i + 1] && s[1..][i + 1] == s[i + 2];
          }
        }
        assert [s[0]] + s[1..] == s;
      }
    }
  }

  /**
   * Every `\r\n` becomes `\n`: replacing around one pair is replacing on each
   * side of it, the pair itself turned into a line break.
   */
  lemma {:induction false} ReplaceCRLFPair(x: Text, y: Text)
    ensures ReplaceCRLF(x + [CR, NL] + y) == ReplaceCRLF(x) + [NL] + ReplaceCRLF(y)
    decreases |x|
  {
    if x == [] {
      assert x + [CR, NL] + y == [CR, NL] + y;
      ReplaceCRLFAtPair(y);
    } else if |x| >= 2 && x[0] == CR && x[1] == NL {
      PairThenRest(x, y);
    } else if x == [CR] {
      LoneCRThenPair(y);
    } else {
      OtherThenPair(x, y);
    }
  }

  /** `ReplaceCRLF` on a text that starts with `\r\n`. */
  lemma ReplaceCRLFAtPair(t: Text)
    ensures ReplaceCRLF([CR, NL] + t) == [NL] + ReplaceCRLF(t)
  {
    assert ([CR, NL] + t)[2..] == t;
  }

  /** `ReplaceCRLF` on a text whose first code unit does not start a `\r\n`. */
  lemma ReplaceCRLFAtOther(c: CodeUnit, t: Text)
    requires c != CR || t == [] || t[0] != NL
    ensures ReplaceCRLF([c] + t) == [c] + ReplaceCRLF(t)
  {
    assert ([c] + t)[1..] == t;
  }

  /** `ReplaceCRLFPair` when `x` itself starts with `\r\n`. */
  lemma {:induction false} PairThenRest(x: Text, y: Text)
    requires |x| >= 2 && x[0] == CR && x[1] == NL
    ensures ReplaceCRLF(x + [CR, NL] + y) == ReplaceCRLF(x) + [NL] + ReplaceCRLF(y)
    decreases |x|, 0
  {
    var x' := x[2..];
    assert x == [CR, NL] + x';
    AppendAssoc([CR, NL], x', [CR, NL]);
    AppendAssoc([CR, NL], x' + [CR, NL], y);
    ReplaceCRLFAtPair(x' + [CR, NL] + y);
    ReplaceCRLFPair(x', y);
    ReplaceCRLFAtPair(x');
    AppendAssoc([NL], ReplaceCRLF(x'), [NL]);
    AppendAssoc([NL], ReplaceCRLF(x') + [NL], ReplaceCRLF(y));
  }

  /** `ReplaceCRLFPair` when `x` is a lone carriage return, which the pair's `\r` does not join. */
  lemma LoneCRThenPair(y: Text)
    ensures ReplaceCRLF([CR] + [CR, NL] + y) == ReplaceCRLF([CR]) + [NL] + ReplaceCRLF(y)
  {
    AppendAssoc([CR], [CR, NL], y);
    ReplaceCRLFAtOther(CR, [CR, NL] + y);
    ReplaceCRLFAtPair(y);
    ReplaceCRLFAtOther(CR, []);
    assert [CR] + ([] + []) == [CR];
  }

  /** `ReplaceCRLFPair` when the first code unit of `x` is kept as it is. */
  lemma {:induction false} OtherThenPair(x: Text, y: Text)
    requires x != [] && !(|x| >= 2 && x[0] == CR && x[1] == NL) && x != [CR]
    ensures ReplaceCRLF(x + [CR, NL] + y) == ReplaceCRLF(x) + [NL] + ReplaceCRLF(y)
    decreases |x|, 0
  {
    var c, x' := x[0], x[1..];
    assert x == [c] + x';
    var rest := x' + [CR, NL] + y;
    assert c == CR ==> x' != [] && x'[0] != NL;
    assert x' != [] ==> rest[0] == x'[0];
    AppendAssoc([c], x', [CR, NL]);
    AppendAssoc([c], x' + [CR, NL], y);
    ReplaceCRLFAtOther(c, rest);
    ReplaceCRLFPair(x', y);
    ReplaceCRLFAtOther(c, x');
    AppendAssoc([c], ReplaceCRLF(x'), [NL]);
    AppendAssoc([c], ReplaceCRLF(x') + [NL], ReplaceCRLF(y));
  }

  /** A lone carriage return survives: `"a\rb"` is sent as it is. */
  lemma LoneCRKept()
    ensures ReplaceCRLF([0x61, CR, 0x62]) == [0x61, CR, 0x62]
  {
    ReplaceCRLFDeletesOnlyCR([0x61, CR, 0x62]);
  }

  /** `s` without its leading run of line breaks. */
  function DropNewlines(s: Text): (r: Text)
    ensures |r| <= |s|
  {
    if s != [] && s[0] == NL then DropNewlines(s[1..]) else s
  }

  /** `s.replace(/\n+/g, ' ')`: every maximal run of line breaks becomes one space. */
  function CollapseNewlines(s: Text): (r: Text)
    ensures NL !in r
    decreases |s|
  {
    if s == [] then []
    else if s[0] == NL then [SPACE] + CollapseNewlines(DropNewlines(s[1..]))
    else [s[0]] + CollapseNewlines(s[1..])
  }

  /** `k` line breaks. */
  function Newlines(k: nat): (r: Text)
    ensures |r| == k && Count(r, NL) == k
  {
    if k == 0 then [] else [NL] + Newlines(k - 1)
  }

  /** Text without line breaks is left alone. */
  lemma {:induction false} CollapseNoNewline(s: Text)
    requires NL !in s
    ensures CollapseNewlines(s) == s
  {
    if s != [] {
      CollapseNoNewline(s[1..]);
      assert [s[0]] + s[1..] == s;
    }
  }

  lemma {:induction false} DropNewlinesRun(k: nat, y: Text)
    requires y == [] || y[0] != NL
    ensures DropNewlines(Newlines(k) + y) == y
  {
    if k > 0 {
      assert (Newlines(k) + y)[0] == NL;
      assert (Newlines(k) + y)[1..] == Newlines(k - 1) + y;
      DropNewlinesRun(k - 1, y);
    } else {
      assert Newlines(k) + y == y;
    }
  }

  /**
   * A line-break-free head, then a run of `k >= 1` line breaks: the head is kept
   * and the run becomes a single space. With `CollapseNoNewline` this fixes
   * `CollapseNewlines` on every input.
   */
  lemma {:induction false} CollapseRun(x: Text, k: nat, y: Text)
    requires NL !in x && k >= 1 && (y == [] || y[0] != NL)
    ensures CollapseNewlines(x + Newlines(k) + y) == x + [SPACE] + CollapseNewlines(y)
  {
    var run := Newlines(k) + y;
    assert x + Newlines(k) + y == x + run;
    if x == [] {
      assert x + run == run;
      CollapseRunHead(k, y, run);
    } else {
      var tail := x[1..];
      var rest := tail + run;
      assert (x + run)[0] == x[0] && (x + run)[1..] == rest;
      CollapseRun(tail, k, y);
      assert tail + Newlines(k) + y == rest;
      CollapseCons(x + run);
      assert [x[0]] + (tail + [SPACE] + CollapseNewlines(y)) == x + [SPACE] + CollapseNewlines(y);
    }
  }

  lemma CollapseCons(s: Text)
    requires s != [] && s[0] != NL
    ensures CollapseNewlines(s) == [s[0]] + CollapseNewlines(s[1..])
  {
  }

  lemma CollapseRunHead(k: nat, y: Text, run: Text)
    requires k >= 1 && (y == [] || y[0] != NL) && run == Newlines(k) + y
    ensures CollapseNewlines(run) == [SPACE] + CollapseNewlines(y)
  {
    assert run[0] == NL;
    assert run[1..] == Newlines(k - 1) + y;
    DropNewlinesRun(k - 1, y);
  }

  /** The selection as sent: CRLF normalised, line-break runs turned into spaces, trimmed. */
  function CleanPrompt(selection: Text): (r: Text)
    ensures NL !in r
  {
    var c := CollapseNewlines(ReplaceCRLF(selection));
    TrimSpec(c);
    var i, j :| 0 <= i <= j <= |c| && Trim(c) == c[i..j];
    SliceNoNewline(c, i, j);
    Trim(c)
  }

  /**
   * Two lines of text separated by a run of line breaks, without carriage
   * returns and with no whitespace at the outer ends, are sent as one line with
   * a single space between them.
   */
  lemma CleanPromptJoinsLines(x: Text, k: nat, y: Text)
    requires x != [] && y != [] && k >= 1
    requires NL !in x && NL !in y && CR !in x && CR !in y
    requires !IsWhitespace(x[0]) && !IsWhitespace(y[|y| - 1])
    ensures CleanPrompt(x + Newlines(k) + y) == x + [SPACE] + y
  {
    var s := x + Newlines(k) + y;
    assert CR !in s by {
      assert CR !in Newlines(k) by {
        CountAbsent(Newlines(k), CR);
        NewlinesOnly(k);
      }
    }
    ReplaceCRLFDeletesOnlyCR(s);
    CollapseRun(x, k, y);
    CollapseNoNewline(y);
    var c := x + [SPACE] + y;
    assert c[0] == x[0] && c[|c| - 1] == y[|y| - 1];
  }

  /** Two such lines separated by `\r\n` are sent as one line with one space between them. */
  lemma CleanPromptJoinsCRLFLines(x: Text, y: Text)
    requires x != [] && y != []
    requires NL !in x && NL !in y && CR !in x && CR !in y
    requires !IsWhitespace(x[0]) && !IsWhitespace(y[|y| - 1])
    ensures CleanPrompt(x + [CR, NL] + y) == x + [SPACE] + y
  {
    var s := x + [CR, NL] + y;
    var u := x + Newlines(1) + y;
    ReplaceCRLFPair(x, y);
    ReplaceCRLFDeletesOnlyCR(x);
    ReplaceCRLFDeletesOnlyCR(y);
    assert Newlines(1) == [NL];
    CleanPromptJoinsLines(x, 1, y);
    assert ReplaceCRLF(u) == u by {
      assert CR !in u by {
        assert CR !in Newlines(1);
      }
      ReplaceCRLFDeletesOnlyCR(u);
    }
    assert ReplaceCRLF(s) == ReplaceCRLF(u);
  }

  lemma {:induction false} NewlinesOnly(k: nat)
    ensures CR !in Newlines(k)
  {
    if k > 0 {
      NewlinesOnly(k - 1);
    }
  }

  /** The two-line selection `"hello\nworld"` is sent as `"hello world"`. */
  lemma CleanPromptExample()
    ensures CleanPrompt([0x68, 0x65, 0x6C, 0x6C, 0x6F, NL, 0x77, 0x6F, 0x72, 0x6C, 0x64])
      == [0x68, 0x65, 0x6C, 0x6C, 0x6F, SPACE, 0x77, 0x6F, 0x72, 0x6C, 0x64]
  {
    var hello: Text := [0x68, 0x65, 0x6C, 0x6C, 0x6F];
    var world: Text := [0x77, 0x6F, 0x72, 0x6C, 0x64];
    assert Newlines(1) == [NL];
    assert hello + Newlines(1) + world == [0x68, 0x65, 0x6C, 0x6C, 0x6F, NL, 0x77, 0x6F, 0x72, 0x6C, 0x64];
    assert hello + [SPACE] + world == [0x68, 0x65, 0x6C, 0x6C, 0x6F, SPACE, 0x77, 0x6F, 0x72, 0x6C, 0x64];
    CleanPromptJoinsLines(hello, 1, world);
  }

  /** `"hello\r\nworld"` is sent as `"hello world"`. */
  lemma CleanPromptCRLFExample()
    ensures CleanPrompt([0x68, 0x65, 0x6C, 0x6C, 0x6F, CR, NL, 0x77, 0x6F, 0x72, 0x6C, 0x64])
      == [0x68, 0x65, 0x6C, 0x6C, 0x6F, SPACE, 0x77, 0x6F, 0x72, 0x6C, 0x64]
  {
    var hello: Text := [0x68, 0x65, 0x6C, 0x6C, 0x6F];
    var world: Text := [0x77, 0x6F, 0x72, 0x6C, 0x64];
    assert hello + [CR, NL] + world == [0x68, 0x65, 0x6C, 0x6C, 0x6F, CR, NL, 0x77, 0x6F, 0x72, 0x6C, 0x64];
    assert hello + [SPACE] + world == [0x68, 0x65, 0x6C, 0x6C, 0x6F, SPACE, 0x77, 0x6F, 0x72, 0x6C, 0x64];
    CleanPromptJoinsCRLFLines(hello, world);
  }

  /** Cleaning an already cleaned text changes nothing. */
  lemma CleanPromptIdempotent(selection: Text)
    ensures CleanPrompt(CleanPrompt(selection)) == CleanPrompt(selection)
  {
    var t := CleanPrompt(selection);
    var c := CollapseNewlines(ReplaceCRLF(selection));
    assert t == Trim(c);
    NoNewlineNoCRLF(t);
    CollapseNoNewline(t);
    TrimIdempotent(c);
  }

  /** Text without line breaks has no `\r\n` to replace. */
  lemma {:induction false} NoNewlineNoCRLF(t: Text)
    requires NL !in t
    ensures ReplaceCRLF(t) == t
  {
    if t != [] {
      assert NL !in t[1..];
      NoNewlineNoCRLF(t[1..]);
      assert [t[0]] + t[1..] == t;
    }
  }

  // ---------------------------------------------------------------------------
  // The request body

  /** What is posted to `/api/generate`, with the URL it goes to. */
  datatype Request = Request(url: Text, prompt: Text, model: Text, temperature: real)

  /** `"/api/generate"`. */
  const GENERATE_PATH: Text := [0x2F, 0x61, 0x70, 0x69, 0x2F, 0x67, 0x65, 0x6E, 0x65, 0x72, 0x61, 0x74, 0x65]

  const DEFAULT_TEMPERATURE: real := 0.2

  /**
   * The request for `command` on `selection`: the prompt template, a blank line,
   * then the cleaned selection; the model and temperature fall back when the
   * command's are falsy.
   */
  function BuildRequest(ollamaUrl: Text, defaultModel: Text, command: Command, selection: Text): (r: Request)
    ensures r.url == ollamaUrl + GENERATE_PATH
    ensures Split(r.prompt) == Split(command.prompt) + [[], CleanPrompt(selection)]
    ensures Count(r.prompt, NL) == Count(command.prompt, NL) + 2
    ensures Unset(command.model) ==> r.model == defaultModel
    ensures !Unset(command.model) ==> r.model == command.model.value
    ensures r.temperature == DEFAULT_TEMPERATURE <==> command.temperature in {None, Some(0.0), Some(DEFAULT_TEMPERATURE)}
    ensures r.temperature != DEFAULT_TEMPERATURE ==> command.temperature == Some(r.temperature)
  {
    var cleaned := CleanPrompt(selection);
    var prompt := command.prompt + [NL, NL] + cleaned;
    PromptLines(command.prompt, cleaned);
    Request(
      ollamaUrl + GENERATE_PATH,
      prompt,
      if Unset(command.model) then defaultModel else command.model.value,
      if command.temperature.None? || command.temperature.value == 0.0 then DEFAULT_TEMPERATURE
      else command.temperature.value)
  }

  /** The lines of `template + "\n\n" + cleaned`. */
  lemma PromptLines(template: Text, cleaned: Text)
    requires NL !in cleaned
    ensures Split(template + [NL, NL] + cleaned) == Split(template) + [[], cleaned]
    ensures Count(template + [NL, NL] + cleaned, NL) == Count(template, NL) + 2
  {
    var t := [NL, NL] + cleaned;
    assert template + [NL, NL] + cleaned == template + t;
    var a := Split(template);
    var l := Last(a);
    TailLines(cleaned, t);
    LastLineThenTail(l, t, cleaned);
    SplitAppend(template, t);
    assert [l, [], cleaned] == [l] + [[], cleaned];
    LastThen(a, l, [[], cleaned]);
    TailCount(template, cleaned, t);
  }

  lemma TailLines(cleaned: Text, t: Text)
    requires NL !in cleaned && t == [NL, NL] + cleaned
    ensures Split(t) == [[], [], cleaned]
  {
    var u := [NL] + cleaned;
    assert t == [NL] + u;
    SplitConsNewline(u);
    SplitConsNewline(cleaned);
    SplitNoNewline(cleaned);
  }

  lemma LastLineThenTail(l: Text, t: Text, cleaned: Text)
    requires NL !in l && Split(t) == [[], [], cleaned]
    ensures Split(l + t) == [l, [], cleaned]
  {
    SplitPrepend(l, t);
    assert l + [] == l;
  }

  lemma TailCount(template: Text, cleaned: Text, t: Text)
    requires NL !in cleaned && t == [NL, NL] + cleaned
    ensures Count(template + t, NL) == Count(template, NL) + 2
  {
    CountAppend(template, t, NL);
    CountAppend([NL, NL], cleaned, NL);
    CountAbsent(cleaned, NL);
    assert [NL, NL][1..] == [NL];
    assert [NL][1..] == [];
  }
}
