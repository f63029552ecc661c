/**
 * Clean-up of finished transcripts (postprocessing.py): `clean_text` drops the
 * blank lines of a subtitle text and strips the others, `process_docx` keeps
 * the non-blank paragraphs of a document, stripped, in a new document, and
 * `process_transcription_file` picks one of the two by the file's suffix.
 * The same `clean_text` appears in utils/postprocessing.py.
 */
module Transcripts {
  import opened Strings

  // ---------------------------------------------------------------------------
  // Keeping the non-blank lines

  /** A line that is not empty and has no whitespace at either end. */
  predicate Trimmed(p: string) {
    p != [] && !IsSpace(p[0]) && !IsSpace(p[|p| - 1])
  }

  /** The trimmed lines are exactly the non-empty lines that are their own strip. */
  lemma TrimmedIff(p: string)
    ensures Trimmed(p) <==> p != [] && Strip(p) == p
  {
    if Trimmed(p) {
      StripOfStripped(p);
    }
    StripEnds(p);
  }

  /** The stripped lines of `ps` that are not empty, in their order. */
  function NonBlank(ps: seq<string>): (r: seq<string>)
    ensures |r| <= |ps|
    ensures forall i :: 0 <= i < |r| ==> Trimmed(r[i])
  {
    if ps == [] then []
    else
      var kept, p := NonBlank(ps[..|ps| - 1]), Strip(ps[|ps| - 1]);
      StripEnds(ps[|ps| - 1]);
      if p != [] then kept + [p] else kept
  }

  /** One line contributes its strip, when that is not empty. */
  lemma NonBlankOne(p: string)
    ensures NonBlank([p]) == if Strip(p) == [] then [] else [Strip(p)]
  {
    assert [p][..0] == [];
  }

  /** Filtering distributes over concatenation: each line is kept or dropped
      on its own, and the kept ones stay in order. */
  lemma {:induction false} NonBlankAppend(a: seq<string>, b: seq<string>)
    ensures NonBlank(a + b) == NonBlank(a) + NonBlank(b)
    decreases |b|
  {
    if b == [] {
      assert a + b == a;
    } else {
      var n := |b| - 1;
      assert (a + b)[..|a + b| - 1] == a + b[..n];
      assert (a + b)[|a + b| - 1] == b[n];
      NonBlankAppend(a, b[..n]);
    }
  }

  /** Lines that are already stripped and not empty are all kept. */
  lemma {:induction false} NonBlankOfClean(ps: seq<string>)
    requires forall i :: 0 <= i < |ps| ==> Trimmed(ps[i])
    ensures NonBlank(ps) == ps
  {
    if ps != [] {
      var init, last := ps[..|ps| - 1], ps[|ps| - 1];
      assert forall i :: 0 <= i < |init| ==> init[i] == ps[i];
      NonBlankOfClean(init);
      TrimmedIff(last);
      assert NonBlank(ps) == NonBlank(init) + [Strip(last)];
      assert init + [last] == ps;
    }
  }

  /** Keeping the non-blank lines twice keeps the same lines. */
  lemma NonBlankIdempotent(ps: seq<string>)
    ensures NonBlank(NonBlank(ps)) == NonBlank(ps)
  {
    NonBlankOfClean(NonBlank(ps));
  }

  /** Stripping never brings in a character. */
  lemma StripKeepsOut(s: string, c: char)
    requires c !in s
    ensures c !in Strip(s)
  {
    var i, j := StripShape(s);
    assert forall k :: 0 <= k < j - i ==> Strip(s)[k] == s[i + k];
  }

  lemma {:induction false} NonBlankKeepsOut(ps: seq<string>, c: char)
    requires forall i :: 0 <= i < |ps| ==> c !in ps[i]
    ensures forall i :: 0 <= i < |NonBlank(ps)| ==> c !in NonBlank(ps)[i]
  {
    if ps != [] {
      var init, last := ps[..|ps| - 1], ps[|ps| - 1];
      NonBlankKeepsOut(init, c);
      StripKeepsOut(last, c);
      var kept, r := NonBlank(init), NonBlank(ps);
      assert r == if Strip(last) != [] then kept + [Strip(last)] else kept;
      forall i | 0 <= i < |r|
        ensures c !in r[i]
      {
        if i < |kept| {
          assert r[i] == kept[i];
        } else {
          assert r[i] == Strip(last);
        }
      }
    }
  }

  // ---------------------------------------------------------------------------
  // clean_text

  /** The lines `clean_text` keeps. */
  function CleanLines(text: string): seq<string> {
    NonBlank(Split(Strip(text), '\n'))
  }

  /** `clean_text`: the kept lines joined by newlines. */
  function CleanText(text: string): string {
    Join(CleanLines(text), '\n')
  }

  /** The lines of the cleaned text are exactly the stripped non-blank lines
      of the input, in order; an input with none gives the empty text. */
  lemma CleanTextLines(text: string)
    ensures CleanLines(text) == [] ==> CleanText(text) == ""
    ensures CleanLines(text) != [] ==> Split(CleanText(text), '\n') == CleanLines(text)
    ensures forall i :: 0 <= i < |CleanLines(text)| ==>
      CleanLines(text)[i] != [] && Strip(CleanLines(text)[i]) == CleanLines(text)[i]
    ensures forall i :: 0 <= i < |CleanLines(text)| ==> '\n' !in CleanLines(text)[i]
  {
    var lines := CleanLines(text);
    NonBlankKeepsOut(Split(Strip(text), '\n'), '\n');
    if lines != [] {
      SplitJoin(lines, '\n');
    }
    forall i | 0 <= i < |lines|
      ensures lines[i] != [] && Strip(lines[i]) == lines[i]
    {
      TrimmedIff(lines[i]);
    }
  }

  /** The first character of a join of non-empty parts opens the first part,
      and its last character closes the last part. */
  lemma {:induction false} JoinEnds(parts: seq<string>, sep: char)
    requires parts != []
    requires forall i :: 0 <= i < |parts| ==> parts[i] != []
    ensures Join(parts, sep) != []
    ensures Join(parts, sep)[0] == parts[0][0]
    ensures Join(parts, sep)[|Join(parts, sep)| - 1] == parts[|parts| - 1][|parts[|parts| - 1]| - 1]
  {
    if |parts| > 1 {
      JoinEnds(parts[1..], sep);
    }
  }

  /** Joining stripped, non-empty lines leaves no whitespace at either end. */
  lemma JoinStripped(lines: seq<string>, sep: char)
    requires forall i :: 0 <= i < |lines| ==> Trimmed(lines[i])
    ensures Strip(Join(lines, sep)) == Join(lines, sep)
  {
    var c := Join(lines, sep);
    if lines != [] {
      JoinEnds(lines, sep);
      assert Trimmed(lines[0]) && Trimmed(lines[|lines| - 1]);
      StripOfStripped(c);
    }
  }

  /** A cleaned text has no whitespace at either end. */
  lemma CleanTextStripped(text: string)
    ensures Strip(CleanText(text)) == CleanText(text)
  {
    JoinStripped(CleanLines(text), '\n');
  }

  /** Cleaning a cleaned text changes nothing. */
  lemma CleanTextIdempotent(text: string)
    ensures CleanText(CleanText(text)) == CleanText(text)
  {
    var c := CleanText(text);
    var lines := CleanLines(text);
    CleanTextStripped(text);
    CleanTextLines(text);
    if lines == [] {
      assert Split(c, '\n') == [""];
      NonBlankOne("");
    } else {
      NonBlankOfClean(lines);
    }
  }

  /** `process_srt`: what it writes is the cleaned content of the file. */
  function ProcessSrt(content: string): (written: string)
    ensures Strip(written) == written
    ensures CleanText(written) == written
  {
    CleanTextStripped(content);
    CleanTextIdempotent(content);
    CleanText(content)
  }

  // ---------------------------------------------------------------------------
  // process_docx

  /** A word-processing document, as far as these scripts see it: its
      paragraphs' texts, in order. */
  class Document {
    var paragraphs: seq<string>

    /** `Document()`: a new, empty document. */
    constructor()
      ensures paragraphs == []
    {
      paragraphs := [];
    }

    /** `add_paragraph(text)`: appends a paragraph. */
    method AddParagraph(text: string)
      modifies this
      ensures paragraphs == old(paragraphs) + [text]
    {
      paragraphs := paragraphs + [text];
    }
  }

  /** The paragraph loop of `process_docx`: the stripped texts that are not
      empty, in order. */
  method FilterParagraphs(paras: seq<string>) returns (kept: seq<string>)
    ensures kept == NonBlank(paras)
  {
    kept := [];
    for i := 0 to |paras|
      invariant kept == NonBlank(paras[..i])
    {
      var text := Strip(paras[i]);
      if text != [] {
        kept := kept + [text];
      }
      NonBlankSnoc(paras, i);
    }
    assert paras[..|paras|] == paras;
  }

  lemma NonBlankSnoc(ps: seq<string>, i: nat)
    requires i < |ps|
    ensures NonBlank(ps[..i + 1])
         == if Strip(ps[i]) != [] then NonBlank(ps[..i]) + [Strip(ps[i])] else NonBlank(ps[..i])
  {
    assert ps[..i + 1][..i] == ps[..i];
  }

  /** A new document with one paragraph per text, in order. */
  method NewDocument(texts: seq<string>) returns (doc: Document)
    ensures fresh(doc)
    ensures doc.paragraphs == texts
  {
    doc := new Document();
    var i := 0;
    while i < |texts|
      invariant 0 <= i <= |texts|
      invariant fresh(doc)
      invariant doc.paragraphs == texts[..i]
    {
      assert texts[..i + 1] == texts[..i] + [texts[i]];
      doc.AddParagraph(texts[i]);
      i := i + 1;
    }
    assert texts[..i] == texts;
  }

  /** `process_docx`: a new document holding the kept paragraphs. */
  method ProcessDocx(source: Document) returns (cleaned: Document)
    ensures fresh(cleaned)
    ensures cleaned.paragraphs == NonBlank(source.paragraphs)
  {
    var kept := FilterParagraphs(source.paragraphs);
    cleaned := NewDocument(kept);
  }

  // ---------------------------------------------------------------------------
  // process_transcription_file

  /** Which processing a file name selects. */
  datatype Kind = Subtitles | WordDocument | Unsupported

  /** The suffix tests of `process_transcription_file`, `.srt` first; they are
      case-sensitive. */
  function KindOf(path: string): (k: Kind)
    ensures k == Subtitles <==> EndsWith(path, ".srt")
    ensures k == WordDocument <==> !EndsWith(path, ".srt") && EndsWith(path, ".docx")
    ensures k == Unsupported <==> !EndsWith(path, ".srt") && !EndsWith(path, ".docx")
  {
    if EndsWith(path, ".srt") then Subtitles
    else if EndsWith(path, ".docx") then WordDocument
    else Unsupported
  }

  /** Only the lower-case suffixes are recognised. */
  lemma SuffixCaseMatters()
    ensures KindOf("interview.SRT") == Unsupported
    ensures KindOf("interview.DOCX") == Unsupported
    ensures KindOf("interview.srt") == Subtitles
    ensures KindOf("interview.docx") == WordDocument
  {
    assert "interview.SRT"[9..] != ".srt";
    assert "interview.SRT"[8..] != ".docx";
    assert "interview.DOCX"[10..] != ".srt";
    assert "interview.DOCX"[9..] != ".docx";
    assert "interview.srt"[9..] == ".srt";
    assert "interview.docx"[10..] != ".srt";
    assert "interview.docx"[9..] == ".docx";
  }

  /** What `process_transcription_file` leaves at the output path. */
  datatype Written = WroteText(text: string) | WroteDocument(paragraphs: seq<string>) | WroteNothing

  /** `process_transcription_file`, given what reading the input as text and
      as a document would give. */
  method ProcessTranscriptionFile(path: string, content: string, source: Document) returns (w: Written)
    ensures KindOf(path) == Subtitles ==> w == WroteText(CleanText(content))
    ensures KindOf(path) == WordDocument ==> w == WroteDocument(NonBlank(source.paragraphs))
    ensures KindOf(path) == Unsupported ==> w == WroteNothing
  {
    if EndsWith(path, ".srt") {
      w := WroteText(ProcessSrt(content));
    } else if EndsWith(path, ".docx") {
      var cleaned := ProcessDocx(source);
      w := WroteDocument(cleaned.paragraphs);
    } else {
      w := WroteNothing;
    }
  }
}
