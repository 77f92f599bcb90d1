/** Leaf documents: reading the Inject section and extending it (route.py, distill.py). */
module LeafDoc {
  import opened Text
  import opened Wrappers
  import Seqs

  const INJECT_HEADING := "## Inject"

  /** What reading a document that is absent or unreadable gives. */
  const MISSING_DOC := "\U{0}MISSING"

  // ---- Lines ------------------------------------------------------------------------------------

  function DropBreak(line: string): string {
    if line != [] && IsBreak(line[|line| - 1]) then line[..|line| - 1] else line
  }

  /** `splitlines()`. */
  function PlainLines(text: string): seq<string> {
    var lines := SplitLines(text);
    seq(|lines|, i requires 0 <= i < |lines| => DropBreak(lines[i]))
  }

  /** `"\n".join`. */
  function JoinLines(lines: seq<string>): string {
    if lines == [] then [] else if |lines| == 1 then lines[0] else lines[0] + "\n" + JoinLines(lines[1..])
  }

  predicate IsHeading(line: string) {
    "## " <= Strip(line)
  }

  predicate IsInjectHeading(line: string) {
    Strip(line) == INJECT_HEADING
  }

  /** The lines under Inject headings. */
  function InjectLines(lines: seq<string>, capturing: bool): seq<string> {
    if lines == [] then []
    else if IsHeading(lines[0]) then InjectLines(lines[1..], IsInjectHeading(lines[0]))
    else (if capturing then [lines[0]] else []) + InjectLines(lines[1..], capturing)
  }

  /** The lines from other headings on. */
  function TailLines(lines: seq<string>, capturing: bool): seq<string> {
    if lines == [] then []
    else if IsHeading(lines[0]) && IsInjectHeading(lines[0]) then TailLines(lines[1..], false)
    else
      var on := capturing || IsHeading(lines[0]);
      (if on then [lines[0]] else []) + TailLines(lines[1..], on)
  }

  function Extract(text: string): string {
    Strip(JoinLines(InjectLines(PlainLines(text), false)))
  }

  function Tail(text: string): string {
    Strip(JoinLines(TailLines(PlainLines(text), false)))
  }

  function NonBlank(lines: seq<string>): seq<string> {
    if lines == [] then [] else (if Strip(lines[0]) == [] then [] else [lines[0]]) + NonBlank(lines[1..])
  }

  /** The Inject body as a rewrite takes it: the sentinel counts as empty. */
  function Body(text: string): string {
    if Extract(text) == MISSING_DOC then [] else Extract(text)
  }

  /** The bullets a rewrite finds in a document. */
  function Bullets(text: string): seq<string> {
    NonBlank(PlainLines(Body(text)))
  }

  predicate Present(bullets: seq<string>, bullet: string) {
    exists i | 0 <= i < |bullets| :: Strip(bullets[i]) == Strip(bullet)
  }

  function Document(bullets: seq<string>, tail: string): string {
    INJECT_HEADING + "\n" + (JoinLines(bullets) + "\n" + if tail == [] then [] else "\n" + tail)
  }

  /** What `_write_leaf_doc` makes of a document; none before counts as empty but has no other sections. */
  function Written(text: string, bullet: string): string {
    var bullets := Bullets(text);
    Document(if Present(bullets, bullet) then bullets else bullets + [bullet], Tail(text))
  }

  // ---- The loops ------------------------------------------------------------------------------------

  lemma InjectStep(lines: seq<string>, i: nat, out: seq<string>, capturing: bool)
    requires i < |lines|
    ensures var line := lines[i];
            out + InjectLines(lines[i..], capturing) ==
            if IsHeading(line) then out + InjectLines(lines[i + 1..], IsInjectHeading(line))
            else (if capturing then out + [line] else out) + InjectLines(lines[i + 1..], capturing)
  {
    var line, rest := lines[i], InjectLines(lines[i + 1..], capturing);
    assert lines[i..][0] == line && lines[i..][1..] == lines[i + 1..];
    Seqs.Assoc(out, [line], rest);
    assert [] + rest == rest;
  }

  lemma TailStep(lines: seq<string>, i: nat, out: seq<string>, capturing: bool)
    requires i < |lines|
    ensures var line := lines[i];
            out + TailLines(lines[i..], capturing) ==
            if IsHeading(line) && IsInjectHeading(line) then out + TailLines(lines[i + 1..], false)
            else
              var on := capturing || IsHeading(line);
              (if on then out + [line] else out) + TailLines(lines[i + 1..], on)
  {
    var line := lines[i];
    var rest := TailLines(lines[i + 1..], capturing || IsHeading(line));
    assert lines[i..][0] == line && lines[i..][1..] == lines[i + 1..];
    Seqs.Assoc(out, [line], rest);
    assert [] + rest == rest;
  }

  /** `extract_inject`; `None` is a document that is absent or cannot be read. */
  method ExtractInject(doc: Option<string>) returns (body: string)
    ensures body == if doc.Some? then Extract(doc.value) else MISSING_DOC
  {
    if doc.None? {
      return MISSING_DOC;
    }
    var lines := PlainLines(doc.value);
    var out: seq<string> := [];
    var capturing := false;
    assert lines[0..] == lines;
    for i := 0 to |lines|
      invariant InjectLines(lines, false) == out + InjectLines(lines[i..], capturing)
    {
      InjectStep(lines, i, out, capturing);
      if IsHeading(lines[i]) {
        capturing := IsInjectHeading(lines[i]);
        continue;
      }
      if capturing {
        out := out + [lines[i]];
      }
    }
    assert lines[|lines|..] == [] && out + [] == out;
    body := Strip(JoinLines(out));
  }

  /** `_section_tail`. */
  method SectionTail(text: string) returns (tail: string)
    ensures tail == Tail(text)
  {
    var lines := PlainLines(text);
    var out: seq<string> := [];
    var capturing := false;
    assert lines[0..] == lines;
    for i := 0 to |lines|
      invariant TailLines(lines, false) == out + TailLines(lines[i..], capturing)
    {
      TailStep(lines, i, out, capturing);
      if IsHeading(lines[i]) {
        if IsInjectHeading(lines[i]) {
          capturing := false;
          continue;
        }
        capturing := true;
      }
      if capturing {
        out := out + [lines[i]];
      }
    }
    assert lines[|lines|..] == [] && out + [] == out;
    tail := Strip(JoinLines(out));
  }

  /** `_write_leaf_doc`: the new text of the file. */
  method WriteLeafDoc(existing: Option<string>, bullet: string) returns (text: string)
    ensures text == if existing.Some? then Written(existing.value, bullet) else Document([bullet], [])
  {
    if existing.None? {
      return INJECT_HEADING + "\n" + (bullet + "\n");
    }
    var body := ExtractInject(existing);
    if body == MISSING_DOC {
      body := "";
    }
    var bullets := NonBlank(PlainLines(body));
    if !Present(bullets, bullet) {
      bullets := bullets + [bullet];
    }
    var tail := SectionTail(existing.value);
    text := INJECT_HEADING + "\n" + (JoinLines(bullets) + "\n" + if tail == [] then [] else "\n" + tail);
  }
}
