/** Label escaping in the Prometheus text exposition format, version 0.0.4. */
module Prometheus {
  import opened Words

  function EscapeChar(c: char): string {
    if c == '\\' then "\\\\"
    else if c == '"' then "\\\""
    else if c == '\n' then "\\n"
    else [c]
  }

  function Escape(s: string): string {
    if s == "" then "" else EscapeChar(s[0]) + Escape(s[1..])
  }

  /** Character by character: a backslash, a quote and a newline become two characters, all others stay. */
  lemma {:induction false} EscapeAppend(s: string, c: char)
    ensures Escape("") == ""
    ensures Escape(s + [c]) ==
            Escape(s) + if c == '\\' then "\\\\" else if c == '"' then "\\\"" else if c == '\n' then "\\n" else [c]
  {
    if s == "" {
      assert (s + [c])[1..] == "";
    } else {
      EscapeAppend(s[1..], c);
      assert (s + [c])[1..] == s[1..] + [c];
    }
  }

  method EscapeLabel(s: string) returns (out: string)
    ensures out == Escape(s)
  {
    out := "";
    for i := 0 to |s|
      invariant out == Escape(s[..i])
    {
      var c := s[i];
      EscapeAppend(s[..i], c);
      assert s[..i + 1] == s[..i] + [c];
      if c == '\\' {
        out := out + "\\\\";
      } else if c == '"' {
        out := out + "\\\"";
      } else if c == '\n' {
        out := out + "\\n";
      } else {
        out := out + [c];
      }
    }
    assert s[..|s|] == s;
  }

  /** An escaped label never breaks the line. */
  lemma {:induction false} EscapeOneLine(s: string)
    ensures '\n' !in Escape(s)
  {
    if s != "" {
      EscapeOneLine(s[1..]);
    }
  }

  // ---------------------------------------------------------------- reading it back

  datatype Label = Label(value: string, rest: string)

  /** The character that a backslash escape stands for; other escapes stand for themselves. */
  function Unescaped(c: char): string {
    if c == 'n' then "\n" else if c == '\\' || c == '"' then [c] else ['\\', c]
  }

  /** Reads a label value up to its closing quote, as the format's readers do. */
  function ReadLabel(text: string): Option<Label> {
    if text == "" then None
    else if text[0] == '"' then Some(Label("", text[1..]))
    else if text[0] == '\\' then
      if |text| < 2 then None
      else
        var tail := ReadLabel(text[2..]);
        if tail.Some? then Some(Label(Unescaped(text[1]) + tail.value.value, tail.value.rest)) else None
    else
      var tail := ReadLabel(text[1..]);
      if tail.Some? then Some(Label([text[0]] + tail.value.value, tail.value.rest)) else None
  }

  /** The position of the first quote that no backslash escapes. */
  function ClosingQuote(text: string): Option<nat> {
    if text == "" then None
    else if text[0] == '"' then Some(0)
    else
      var skip := if text[0] == '\\' then 2 else 1;
      if |text| < skip then None
      else
        var at := ClosingQuote(text[skip..]);
        if at.Some? then Some(at.value + skip) else None
  }

  lemma ReadOneEscaped(c: char, tail: string, value: string, rest: string)
    requires ReadLabel(tail) == Some(Label(value, rest))
    ensures ReadLabel(EscapeChar(c) + tail) == Some(Label([c] + value, rest))
  {
    var head := EscapeChar(c);
    var text := head + tail;
    assert text[|head|..] == tail;
    if c == '\\' || c == '"' || c == '\n' {
      assert text[0] == '\\' && Unescaped(text[1]) == [c];
    } else {
      assert text[0] == c;
    }
  }

  lemma EscapedText(s: string, rest: string)
    requires s != ""
    ensures Escape(s) + "\"" + rest == EscapeChar(s[0]) + (Escape(s[1..]) + "\"" + rest)
  {
  }

  /** A quoted, escaped label reads back as the original, and the reader stops at its own quote. */
  lemma {:induction false} ReadEscaped(s: string, rest: string)
    ensures ReadLabel(Escape(s) + "\"" + rest) == Some(Label(s, rest))
    decreases |s|
  {
    if s == "" {
      assert Escape(s) + "\"" + rest == "\"" + rest;
    } else {
      ReadEscaped(s[1..], rest);
      EscapedText(s, rest);
      ReadOneEscaped(s[0], Escape(s[1..]) + "\"" + rest, s[1..], rest);
      assert [s[0]] + s[1..] == s;
    }
  }

  lemma {:induction false} ClosingQuoteIsTheClosing(s: string, rest: string)
    ensures ClosingQuote(Escape(s) + "\"" + rest) == Some(|Escape(s)|)
  {
    var text := Escape(s) + "\"" + rest;
    if s == "" {
      assert text == "\"" + rest;
    } else {
      var tail := Escape(s[1..]) + "\"" + rest;
      ClosingQuoteIsTheClosing(s[1..], rest);
      assert text == EscapeChar(s[0]) + tail;
      ClosingPastOne(s[0], tail, |Escape(s[1..])|);
    }
  }

  lemma ClosingPastOne(c: char, tail: string, k: nat)
    requires ClosingQuote(tail) == Some(k)
    ensures ClosingQuote(EscapeChar(c) + tail) == Some(|EscapeChar(c)| + k)
  {
    var text := EscapeChar(c) + tail;
    assert text[|EscapeChar(c)|..] == tail;
  }

  /** Different labels never collide. */
  lemma EscapeInjective(s: string, t: string)
    requires Escape(s) == Escape(t)
    ensures s == t
  {
    ReadEscaped(s, "");
    ReadEscaped(t, "");
  }

  // ---------------------------------------------------------------- sample lines

  datatype Sample = Sample(pid: string, comm: string, value: string)

  function LinePrefix(metric: string, s: Sample): string {
    metric + "{pid=\"" + s.pid + "\",comm=\""
  }

  function Line(metric: string, s: Sample): string {
    LinePrefix(metric, s) + (Escape(s.comm) + "\"" + ("} " + s.value))
  }

  function Family(metric: string, samples: seq<Sample>): string {
    if samples == [] then "" else Line(metric, samples[0]) + "\n" + Family(metric, samples[1..])
  }

  /** The newline-terminated lines of a document. */
  function Lines(doc: string, current: string): seq<string>
    decreases |doc|
  {
    if doc == "" then []
    else if doc[0] == '\n' then [current] + Lines(doc[1..], "")
    else Lines(doc[1..], current + [doc[0]])
  }

  lemma {:induction false} LinesTakeOne(line: string, rest: string, current: string)
    requires '\n' !in line
    ensures Lines(line + "\n" + rest, current) == [current + line] + Lines(rest, "")
    decreases |line|
  {
    var doc := line + "\n" + rest;
    if line == "" {
      assert doc == "\n" + rest;
      assert current + line == current;
    } else {
      assert doc[1..] == line[1..] + "\n" + rest;
      LinesTakeOne(line[1..], rest, current + [line[0]]);
      assert current + [line[0]] + line[1..] == current + line;
    }
  }

  lemma LineHasNoNewline(metric: string, s: Sample)
    requires '\n' !in metric && '\n' !in s.pid && '\n' !in s.value
    ensures '\n' !in Line(metric, s)
  {
    EscapeOneLine(s.comm);
  }

  lemma LineMeaning(metric: string, s: Sample)
    ensures Line(metric, s) == metric + "{pid=\"" + s.pid + "\",comm=\"" + (Escape(s.comm) + "\"" + ("} " + s.value))
  {
  }

  lemma {:induction false} FamilyLines(metric: string, samples: seq<Sample>, lines: seq<string>)
    requires '\n' !in metric && forall s :: s in samples ==> '\n' !in s.pid && '\n' !in s.value
    requires lines == Lines(Family(metric, samples), "")
    ensures |lines| == |samples| && forall i :: 0 <= i < |samples| ==> lines[i] == Line(metric, samples[i])
    decreases |samples|
  {
    if samples != [] {
      var line, rest := Line(metric, samples[0]), Family(metric, samples[1..]);
      LineHasNoNewline(metric, samples[0]);
      FamilyLines(metric, samples[1..], Lines(rest, ""));
      LinesTakeOne(line, rest, "");
      assert "" + line == line;
    }
  }

  /**
   Whatever the command names hold, a metric family has exactly one line per sample, in
   order, and the command label of each line reads back as the sample's command.
   */
  lemma FamilyReadsBack(metric: string, samples: seq<Sample>)
    requires '\n' !in metric && forall s :: s in samples ==> '\n' !in s.pid && '\n' !in s.value
    ensures var lines := Lines(Family(metric, samples), "");
            && |lines| == |samples|
            && forall i :: 0 <= i < |samples| ==>
                 && lines[i] == metric + "{pid=\"" + samples[i].pid + "\",comm=\"" +
                                (Escape(samples[i].comm) + "\"" + ("} " + samples[i].value))
                 && ReadLabel(lines[i][|LinePrefix(metric, samples[i])|..]) ==
                    Some(Label(samples[i].comm, "} " + samples[i].value))
  {
    FamilyLines(metric, samples, Lines(Family(metric, samples), ""));
    forall i | 0 <= i < |samples|
      ensures ReadLabel(Line(metric, samples[i])[|LinePrefix(metric, samples[i])|..]) ==
              Some(Label(samples[i].comm, "} " + samples[i].value))
    {
      CommReadsBack(metric, samples[i]);
      LineMeaning(metric, samples[i]);
    }
  }

  lemma CommReadsBack(metric: string, s: Sample)
    ensures ReadLabel(Line(metric, s)[|LinePrefix(metric, s)|..]) == Some(Label(s.comm, "} " + s.value))
  {
    ReadEscaped(s.comm, "} " + s.value);
    assert Line(metric, s)[|LinePrefix(metric, s)|..] == Escape(s.comm) + "\"" + ("} " + s.value);
  }

  /** One metric family of the export. */
  method ExportFamily(metric: string, samples: seq<Sample>) returns (out: string)
    ensures out == Family(metric, samples)
  {
    out := "";
    for i := 0 to |samples|
      invariant out == Family(metric, samples[..i])
    {
      var escaped := EscapeLabel(samples[i].comm);
      FamilyAppend(metric, samples[..i], samples[i]);
      assert samples[..i + 1] == samples[..i] + [samples[i]];
      out := out + (LinePrefix(metric, samples[i]) + (escaped + "\"" + ("} " + samples[i].value)) + "\n");
    }
    assert samples[..|samples|] == samples;
  }

  lemma {:induction false} FamilyAppend(metric: string, samples: seq<Sample>, s: Sample)
    ensures Family(metric, samples + [s]) == Family(metric, samples) + (Line(metric, s) + "\n")
  {
    if samples == [] {
      assert (samples + [s])[1..] == [];
    } else {
      FamilyAppend(metric, samples[1..], s);
      assert (samples + [s])[1..] == samples[1..] + [s];
      assert Family(metric, samples + [s]) ==
             Line(metric, samples[0]) + "\n" + (Family(metric, samples[1..]) + (Line(metric, s) + "\n"));
    }
  }
}
