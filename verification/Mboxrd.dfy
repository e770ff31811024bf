/** Writing a message body into an mbox file (src/readpst.c, write_email_body): lines that look
    like a separator are quoted. */
module Mboxrd {
  import opened Common

  const FROM := "From "

  // ---------- lines ----------

  /** The text up to and including the first newline, or all of it. */
  function FirstLine(s: string): (line: string)
    ensures |line| <= |s| && (s != "" ==> line != "")
  {
    if s == "" then "" else if s[0] == '\n' then "\n" else [s[0]] + FirstLine(s[1..])
  }

  /** The lines of a text, each with its newline; only the last one may lack it. */
  function Lines(s: string): seq<string> {
    if s == "" then [] else [FirstLine(s)] + Lines(s[|FirstLine(s)|..])
  }

  function Join(lines: seq<string>): string {
    if lines == [] then "" else lines[0] + Join(lines[1..])
  }

  /** How many '>' a line starts with. */
  function Quotes(line: string): (n: nat)
    ensures n <= |line|
  {
    if line != "" && line[0] == '>' then 1 + Quotes(line[1..]) else 0
  }

  /** Any number of '>' and then "From ". */
  predicate LooksLikeFrom(line: string) { FROM <= line[Quotes(line)..] }

  function QuoteLine(line: string): string { if LooksLikeFrom(line) then ">" + line else line }

  /** What a reader of the mboxrd format does: one '>' comes off such a line, if it has one. */
  function UnquoteLine(line: string): string {
    if LooksLikeFrom(line) && Quotes(line) > 0 then line[1..] else line
  }

  function Map(f: string -> string, lines: seq<string>): (r: seq<string>)
    ensures |r| == |lines| && forall i :: 0 <= i < |lines| ==> r[i] == f(lines[i])
  {
    seq(|lines|, i requires 0 <= i < |lines| => f(lines[i]))
  }

  function Quoted(body: string): string { Join(Map(QuoteLine, Lines(body))) }

  function Unquoted(text: string): string { Join(Map(UnquoteLine, Lines(text))) }

  // ---------- properties ----------

  /** A list of lines as they come out of splitting a text. */
  predicate AreLines(lines: seq<string>) {
    && (forall i :: 0 <= i < |lines| ==> lines[i] != "" && '\n' !in lines[i][..|lines[i]| - 1])
    && (forall i :: 0 <= i < |lines| - 1 ==> lines[i][|lines[i]| - 1] == '\n')
  }

  lemma {:induction false} FirstLineShape(s: string)
    requires s != ""
    ensures var line := FirstLine(s);
      && line <= s && (forall i :: 0 <= i < |line| - 1 ==> line[i] != '\n')
      && (line != s ==> line[|line| - 1] == '\n')
  {
    if s[0] != '\n' && |s| > 1 {
      FirstLineShape(s[1..]);
    }
  }

  lemma {:induction false} LinesAreLines(s: string)
    ensures AreLines(Lines(s)) && Join(Lines(s)) == s
  {
    if s != "" {
      var line := FirstLine(s);
      var rest := s[|line|..];
      assert line + rest == s by { FirstLineShape(s); }
      LinesAreLines(rest);
      assert Lines(s) == [line] + Lines(rest);
      FirstLineShape(s);
    }
  }

  lemma {:induction false} FirstLineOf(line: string, rest: string)
    requires line != "" && '\n' !in line[..|line| - 1] && (rest == "" || line[|line| - 1] == '\n')
    ensures FirstLine(line + rest) == line
  {
    if |line| > 1 {
      assert line[0] == line[..|line| - 1][0];
      assert line[1..][..|line[1..]| - 1] == line[..|line| - 1][1..];
      FirstLineOf(line[1..], rest);
      assert (line + rest)[1..] == line[1..] + rest;
    } else if line[0] != '\n' {
      assert (line + rest)[1..] == "";
    }
  }

  lemma {:induction false} LinesStep(line: string, rest: string)
    requires line != "" && '\n' !in line[..|line| - 1] && (rest == "" || line[|line| - 1] == '\n')
    ensures Lines(line + rest) == [line] + Lines(rest)
  {
    FirstLineOf(line, rest);
    assert (line + rest)[|line|..] == rest;
  }

  /** Splitting undoes joining. */
  lemma {:induction false} LinesOfJoin(lines: seq<string>)
    requires AreLines(lines)
    ensures Lines(Join(lines)) == lines
  {
    if lines != [] {
      LinesOfJoin(lines[1..]);
      assert |lines| == 1 ==> lines[1..] == [];
      LinesStep(lines[0], Join(lines[1..]));
    }
  }

  lemma {:induction false} QuoteLineKeepsShape(line: string)
    requires line != "" && '\n' !in line[..|line| - 1]
    ensures var q := QuoteLine(line);
      && q != "" && '\n' !in q[..|q| - 1] && q[|q| - 1] == line[|line| - 1]
      && UnquoteLine(q) == line && !(FROM <= q)
  {
    assert FROM <= line ==> Quotes(line) == 0;
    assert line[0..] == line;
    if LooksLikeFrom(line) {
      var q := ">" + line;
      assert q[1..] == line;
      assert q[..|q| - 1] == ">" + line[..|line| - 1];
      assert q[Quotes(q)..] == line[Quotes(line)..];
    }
  }

  /** The line consists of k times '>', then the word From and a space, then anything. */
  predicate IsFrom(line: string, k: nat) {
    k + 5 <= |line| && line[k..k + 5] == ['F', 'r', 'o', 'm', ' '] && forall i :: 0 <= i < k ==> line[i] == '>'
  }

  lemma {:induction false} QuotesAre(line: string)
    ensures forall i :: 0 <= i < Quotes(line) ==> line[i] == '>'
    ensures Quotes(line) < |line| ==> line[Quotes(line)] != '>'
  {
    if line != "" && line[0] == '>' { QuotesAre(line[1..]); }
  }

  lemma {:induction false} LooksLikeFromIff(line: string)
    ensures LooksLikeFrom(line) <==> exists k: nat :: IsFrom(line, k)
  {
    QuotesAre(line);
    var n := Quotes(line);
    if LooksLikeFrom(line) {
      assert line[n..n + 5] == line[n..][..5] == FROM;
      assert IsFrom(line, n);
    }
    if k: nat :| IsFrom(line, k) {
      assert line[k] == line[k..k + 5][0] == 'F';
      assert k == n;
      assert line[n..][..5] == line[n..n + 5];
    }
  }

  /** Line by line, exactly these get a '>' in front, and all others stay as they are. */
  lemma {:induction false} WhichLinesAreQuoted(body: string, i: nat)
    requires i < |Lines(body)|
    ensures |Lines(Quoted(body))| == |Lines(body)|
    ensures var line, line' := Lines(body)[i], Lines(Quoted(body))[i];
      && ((exists k: nat :: IsFrom(line, k)) ==> line' == ['>'] + line)
      && (!(exists k: nat :: IsFrom(line, k)) ==> line' == line)
  {
    QuotedLines(body);
    LooksLikeFromIff(Lines(body)[i]);
  }

  lemma {:induction false} QuotedLines(body: string)
    ensures Lines(Quoted(body)) == Map(QuoteLine, Lines(body))
  {
    var lines := Lines(body);
    var quoted := Map(QuoteLine, lines);
    LinesAreLines(body);
    forall i | 0 <= i < |lines|
      ensures quoted[i] != "" && '\n' !in quoted[i][..|quoted[i]| - 1]
      ensures quoted[i][|quoted[i]| - 1] == lines[i][|lines[i]| - 1]
    {
      QuoteLineKeepsShape(lines[i]);
    }
    LinesOfJoin(quoted);
  }

  /** For every body, with or without a final newline: unquoting restores it, and no line of
      the output can be taken for a separator. */
  lemma {:induction false} QuotingIsReversible(body: string)
    ensures Unquoted(Quoted(body)) == body
    ensures forall i :: 0 <= i < |Lines(Quoted(body))| ==> !(FROM <= Lines(Quoted(body))[i])
  {
    var lines := Lines(body);
    var quoted := Map(QuoteLine, lines);
    LinesAreLines(body);
    QuotedLines(body);
    forall i | 0 <= i < |lines| ensures UnquoteLine(quoted[i]) == lines[i] && !(FROM <= quoted[i]) {
      QuoteLineKeepsShape(lines[i]);
    }
    assert Map(UnquoteLine, quoted) == lines;
  }

  // ---------- write_email_body ----------

  /** strchr: the position of the first newline from `at` on, if there is one. */
  method FindNewline(s: string, at: nat) returns (found: bool, k: nat)
    requires at <= |s|
    ensures at <= k <= |s| && forall i :: at <= i < k ==> s[i] != '\n'
    ensures found <==> k < |s|
    ensures found ==> s[k] == '\n'
  {
    k := at;
    while k < |s| && s[k] != '\n'
      invariant at <= k <= |s| && forall i :: at <= i < k ==> s[i] != '\n'
    {
      k := k + 1;
    }
    found := k < |s|;
  }

  lemma {:induction false} QuotedStep(line: string, more: string)
    requires line != "" && '\n' !in line[..|line| - 1] && (more == "" || line[|line| - 1] == '\n')
    ensures Quoted(line + more) == QuoteLine(line) + Quoted(more) && FirstLine(line + more) == line
  {
    LinesStep(line, more);
    FirstLineOf(line, more);
    QuotedJoin(line, Lines(more));
  }

  lemma {:induction false} QuotedJoin(line: string, lines: seq<string>)
    ensures Join(Map(QuoteLine, [line] + lines)) == QuoteLine(line) + Join(Map(QuoteLine, lines))
  {
    assert Map(QuoteLine, [line] + lines)[1..] == Map(QuoteLine, lines);
  }

  /** The loop over a line's leading '>', and the comparison behind it. */
  method StartsLikeFrom(s: string, at: nat) returns (b: bool)
    requires at <= |s|
    ensures b <==> LooksLikeFrom(FirstLine(s[at..]))
  {
    var p := at;
    while p < |s| && s[p] == '>'
      invariant at <= p <= |s|
      invariant Quotes(s[at..]) == p - at + Quotes(s[p..])
    {
      assert s[p..][1..] == s[p + 1..];
      p := p + 1;
    }
    b := p + 5 <= |s| && s[p..p + 5] == FROM;
    LineOrText(s[at..]);
    assert s[at..][Quotes(s[at..])..] == s[p..];
  }

  /** Looking at the whole rest of the text instead of its first line makes no difference. */
  lemma {:induction false} LineOrText(s: string)
    ensures LooksLikeFrom(FirstLine(s)) <==> FROM <= s[Quotes(s)..]
  {
    if s != "" && s[0] == '>' {
      LineOrText(s[1..]);
      assert FirstLine(s)[1..] == FirstLine(s[1..]);
    } else {
      PrefixOfLine(s, FROM);
      assert s[0..] == s && FirstLine(s)[0..] == FirstLine(s);
    }
  }

  lemma {:induction false} PrefixOfLine(s: string, p: string)
    requires '\n' !in p
    ensures p <= FirstLine(s) <==> p <= s
  {
    if p != "" && s != "" && s[0] == p[0] {
      PrefixOfLine(s[1..], p[1..]);
      assert FirstLine(s)[1..] == FirstLine(s[1..]);
    }
  }

  /** What one round adds to the file: the mark, and the line if it ends. */
  lemma {:induction false} RoundStep(before: string, body: string, at: nat, k: nat)
    requires at <= k <= |body| && (forall i :: at <= i < k ==> body[i] != '\n') && (k < |body| ==> body[k] == '\n')
    ensures var marked := if LooksLikeFrom(FirstLine(body[at..])) then before + ">" else before;
      if k < |body| then marked + body[at..k + 1] + Quoted(body[k + 1..]) == before + Quoted(body[at..])
      else marked + body[at..] == before + Quoted(body[at..])
  {
    var line := if k < |body| then body[at..k + 1] else body[at..];
    var more := if k < |body| then body[k + 1..] else "";
    assert line + more == body[at..];
    if line != "" {
      assert '\n' !in line[..|line| - 1] by {
        assert forall i :: 0 <= i < |line| - 1 ==> line[i] == body[at + i];
      }
      QuotedStep(line, more);
    }
    Joined(before, line, Quoted(more));
  }

  lemma {:induction false} Joined(before: string, line: string, later: string)
    ensures before + ">" + line + later == before + (">" + line + later)
    ensures before + line + later == before + (line + later)
    ensures line + "" == line && before + ">" + line == before + (">" + line)
  {
  }

  /** One round of the loop: the mark for the line at `at`, and the line itself if it ends. */
  method WriteLine(f: FileStream<char>, body: string, at: nat) returns (more: bool, at': nat)
    requires at <= |body|
    modifies f
    ensures at <= at' <= |body| && (more ==> at < at')
    ensures f.written + (if more then Quoted(body[at'..]) else body[at'..]) == old(f.written) + Quoted(body[at..])
  {
    ghost var before := f.written;
    var looks := StartsLikeFrom(body, at);
    if looks { f.Write(">"); }
    assert f.written == if LooksLikeFrom(FirstLine(body[at..])) then before + ">" else before;
    at' := at;
    var k;
    more, k := FindNewline(body, at);
    RoundStep(before, body, at, k);
    if more {
      f.Write(body[at..k + 1]);
      at' := k + 1;
    }
  }

  /** In separate mode every message has a file of its own and nothing is quoted. */
  method WriteEmailBody(f: FileStream<char>, body: string, separate: bool)
    modifies f
    ensures f.written == old(f.written) + if separate then body else Quoted(body)
  {
    var at: nat := 0;
    assert body[0..] == body;
    if !separate {
      var more := true;
      while more
        invariant at <= |body|
        invariant f.written + (if more then Quoted(body[at..]) else body[at..]) == old(f.written) + Quoted(body)
        decreases |body| - at, more
      {
        more, at := WriteLine(f, body, at);
      }
    }
    f.Write(body[at..]);
  }
}
