/**
 `Document.load` and the metadata fallback of `Document.__getattr__` from
 document.py. A document file is a header of `key: value` lines, a line
 holding only a newline, and a Markdown body. The file arrives as the
 lines Python's file iteration yields (each keeps its `"\n"` except
 possibly the last), and the path as the components `pathlib` splits it
 into.
 */
module Document {
  import opened Wrappers
  import opened Text
  import opened Paths
  import opened Metadata

  /** The ways a load fails once the file has been read. */
  datatype LoadError =
    /** `key, value = line.split(":")` found `fields` fields, not two, on header line `line`. */
    | MalformedMetadata(line: nat, fields: nat)
    /** The path had `components` components, so there is no second one to name the document after. */
    | InvalidPath(components: nat)

  /** A loaded document: its name, the path it was loaded from, its metadata and its Markdown text. */
  datatype Doc = Doc(name: string, path: string, meta: map<string, string>, markdown: string)

  /** The only line that ends the header. */
  const Blank: string := "\n"

  /** The index of the first line equal to `"\n"`, if there is one. */
  function FirstBlank(lines: seq<string>): (r: Option<nat>)
    ensures r.Some? ==> r.value < |lines| && lines[r.value] == Blank
    ensures forall j :: 0 <= j < |lines| && (r.None? || j < r.value) ==> lines[j] != Blank
  {
    if |lines| == 0 then None
    else if lines[0] == Blank then Some(0)
    else match FirstBlank(lines[1..])
      case Some(i) => Some(i + 1)
      case None => None
  }

  /**
   The header: the longest prefix of the lines that holds no blank line.
   Either it is all of the lines or the line right after it is the blank one.
   */
  function Header(lines: seq<string>): (h: seq<string>)
    ensures |h| <= |lines| && h == lines[..|h|]
    ensures forall j :: 0 <= j < |h| ==> h[j] != Blank
    ensures h == lines || lines[|h|] == Blank
  {
    match FirstBlank(lines)
    case Some(i) => lines[..i]
    case None => lines
  }

  /**
   The lines after the first blank line, none when there is no blank line.
   The blank line itself belongs to neither the header nor the body.
   */
  function BodyLines(lines: seq<string>): (b: seq<string>)
    ensures FirstBlank(lines).Some? ==> Header(lines) + [Blank] + b == lines
    ensures FirstBlank(lines).None? ==> b == []
  {
    match FirstBlank(lines)
    case Some(i) =>
      assert lines == lines[..i] + [Blank] + lines[i + 1..];
      lines[i + 1..]
    case None => []
  }

  /**
   Parses the header lines in order and stops at the first malformed one,
   as the exception raised inside the loop of `Document.load` does.
   */
  function ParseHeader(header: seq<string>): (r: Result<seq<Entry>, LoadError>)
    ensures r.Success? ==> |r.value| == |header| && forall j :: 0 <= j < |header| ==> ParseLine(header[j]) == Success(r.value[j])
    ensures r.Failure? ==>
      && r.error.MalformedMetadata?
      && r.error.line < |header|
      && ParseLine(header[r.error.line]) == Failure(r.error.fields)
      && forall j :: 0 <= j < r.error.line ==> ParseLine(header[j]).Success?
  {
    if |header| == 0 then Success([])
    else match ParseLine(header[0])
      case Failure(n) => Failure(MalformedMetadata(0, n))
      case Success(e) =>
        var rest := header[1..];
        match ParseHeader(rest)
        case Failure(err) =>
          assert forall j :: 1 <= j <= err.line ==> header[j] == rest[j - 1];
          Failure(err.(line := err.line + 1))
        case Success(es) =>
          Success([e] + es)
  }

  /** Every header line has exactly one colon. */
  predicate HeaderWellFormed(lines: seq<string>) {
    forall j :: 0 <= j < |Header(lines)| ==> Count(Header(lines)[j], ':') == 1
  }

  /**
   Lines 45-46 of document.py: the name is the second path component without
   its extension; a path of fewer than two components has none.
   */
  function DeriveName(parts: seq<string>): (r: Result<string, LoadError>)
    ensures r.Success? <==> |parts| >= 2
    ensures r.Success? ==> r.value + SplitExt(parts[1]).1 == parts[1]
    ensures r.Failure? ==> r.error == InvalidPath(|parts|)
  {
    if |parts| < 2 then Failure(InvalidPath(|parts|)) else Success(Stem(parts[1]))
  }

  /**
   `Document.load(path)` on a file whose lines are `lines` and whose path
   splits into `parts`, called on a document whose metadata is `prior`.
   `prior` is empty for a fresh `Document()`; `load` assigns into the map it
   finds and never clears it, so a second load keeps the keys of the first
   file that the second header does not set. A malformed header line is
   reported before a bad path, because the file is parsed before the name
   is derived; the line reported is the first malformed one.
   */
  function Load(prior: map<string, string>, path: string, parts: seq<string>, lines: seq<string>): (r: Result<Doc, LoadError>)
    ensures r.Success? <==> HeaderWellFormed(lines) && |parts| >= 2
    ensures r.Failure? ==> (r.error.MalformedMetadata? <==> !HeaderWellFormed(lines))
    ensures r.Failure? && r.error.MalformedMetadata? ==>
      && r.error.line < |Header(lines)|
      && lines[r.error.line] != Blank
      && Count(lines[r.error.line], ':') != 1
      && forall j :: 0 <= j < r.error.line ==> Count(lines[j], ':') == 1
    ensures r.Success? ==> r.value.path == path && DeriveName(parts) == Success(r.value.name)
  {
    match ParseHeader(Header(lines))
    case Failure(e) => Failure(e)
    case Success(entries) =>
      match DeriveName(parts)
      case Failure(e) => Failure(e)
      case Success(name) => Success(Doc(name, path, Assign(prior, entries), Concat(BodyLines(lines))))
  }

  /** The line parses and its key is `key`. */
  predicate HasKey(line: string, key: string) {
    ParseLine(line).Success? && ParseLine(line).value.key == key
  }

  /**
   The header lines, the blank line and the body put back together give the
   file's text: the body is every line after the blank one, unmodified.
   */
  lemma LoadReassembles(prior: map<string, string>, path: string, parts: seq<string>, lines: seq<string>, d: Doc)
    requires Load(prior, path, parts, lines) == Success(d)
    requires FirstBlank(lines).Some?
    ensures Concat(Header(lines)) + Blank + d.markdown == Concat(lines)
  {
    var h, b := Header(lines), BodyLines(lines);
    ConcatAppend(h + [Blank], b);
    ConcatAppend(h, [Blank]);
    assert Concat([Blank]) == Blank + Concat([]);
  }

  /** Without a blank line every line is metadata and the body is empty. */
  lemma LoadWithoutBlank(prior: map<string, string>, path: string, parts: seq<string>, lines: seq<string>, d: Doc)
    requires forall j :: 0 <= j < |lines| ==> lines[j] != Blank
    requires Load(prior, path, parts, lines) == Success(d)
    ensures d.markdown == ""
    ensures forall j :: 0 <= j < |lines| ==> ParseLine(lines[j]).Success? && ParseLine(lines[j]).value.key in d.meta
  {
    var entries := ParseHeader(lines).value;
    forall j | 0 <= j < |lines|
      ensures ParseLine(lines[j]).Success? && ParseLine(lines[j]).value.key in d.meta
    {
      AssignLastWins(prior, entries, entries[j].key);
      LastValueIsLast(entries, entries[j].key);
    }
  }

  /** Some header line parses and has key `key`. */
  predicate HeaderHasKey(lines: seq<string>, key: string) {
    exists j :: 0 <= j < |Header(lines)| && HasKey(Header(lines)[j], key)
  }

  /**
   A key is in the loaded metadata exactly when some header line has it or
   the document already held it. A header key takes the value on the last
   header line that has it; any other key keeps the value it had.
   */
  lemma LoadedMeta(prior: map<string, string>, path: string, parts: seq<string>, lines: seq<string>, d: Doc, key: string)
    requires Load(prior, path, parts, lines) == Success(d)
    ensures key in d.meta <==> HeaderHasKey(lines, key) || key in prior
    ensures HeaderHasKey(lines, key) ==> key in d.meta && exists j :: (0 <= j < |Header(lines)|
      && ParseLine(Header(lines)[j]) == Success(Entry(key, d.meta[key]))
      && forall j' :: j < j' < |Header(lines)| ==> !HasKey(Header(lines)[j'], key))
    ensures !HeaderHasKey(lines, key) && key in prior ==> key in d.meta && d.meta[key] == prior[key]
  {
    var h := Header(lines);
    assert ParseHeader(h).Success?;
    var entries := ParseHeader(h).value;
    assert d.meta == Assign(prior, entries);
    assert forall j :: 0 <= j < |h| ==> (HasKey(h[j], key) <==> entries[j].key == key);
    AssignLastWins(prior, entries, key);
    LastValueIsLast(entries, key);
    assert HeaderHasKey(lines, key) <==> LastValue(entries, key).Some?;
    if HeaderHasKey(lines, key) {
      var j :| 0 <= j < |entries| && entries[j] == Entry(key, d.meta[key])
        && forall j' :: j < j' < |entries| ==> entries[j'].key != key;
      assert ParseLine(h[j]) == Success(Entry(key, d.meta[key]));
    }
  }

  /** The attributes `Document()` defines itself; every other name falls back to the metadata. */
  const FieldNames: set<string> := {"name", "path", "meta", "markdown"}

  /** What reading an attribute of a loaded document yields. */
  datatype Attr = Str(text: string) | Table(entries: map<string, string>) | Absent

  /**
   Attribute access on a loaded document: a defined field first, otherwise
   `meta.get(key)`, which gives `None` rather than an error for an unknown key.
   */
  function GetAttr(d: Doc, key: string): (r: Attr)
    ensures key !in FieldNames ==> (r.Absent? <==> key !in d.meta)
    ensures r.Table? <==> key == "meta"
    ensures key !in FieldNames && key in d.meta ==> r == Str(d.meta[key])
  {
    if key == "name" then Str(d.name)
    else if key == "path" then Str(d.path)
    else if key == "meta" then Table(d.meta)
    else if key == "markdown" then Str(d.markdown)
    else if key in d.meta then Str(d.meta[key])
    else Absent
  }

  /**
   Reading a name that is not a field of a loaded document gives the value
   on the last header line with that key, else the value the document
   already held, and nothing (never an error) when neither has it.
   */
  lemma LoadedAttribute(prior: map<string, string>, path: string, parts: seq<string>, lines: seq<string>, d: Doc, key: string)
    requires Load(prior, path, parts, lines) == Success(d)
    requires key !in FieldNames
    ensures GetAttr(d, key).Absent? <==> !HeaderHasKey(lines, key) && key !in prior
    ensures HeaderHasKey(lines, key) ==> GetAttr(d, key).Str? && exists j :: (0 <= j < |Header(lines)|
      && ParseLine(Header(lines)[j]) == Success(Entry(key, GetAttr(d, key).text))
      && forall j' :: j < j' < |Header(lines)| ==> !HasKey(Header(lines)[j'], key))
    ensures !HeaderHasKey(lines, key) && key in prior ==> GetAttr(d, key) == Str(prior[key])
  {
    LoadedMeta(prior, path, parts, lines, d, key);
  }

  /** The header lines that write out `entries`, one `key: value` line each. */
  function FormatHeader(entries: seq<Entry>): seq<string> {
    seq(|entries|, j requires 0 <= j < |entries| => FormatLine(entries[j]))
  }

  /**
   Any blank-free header, a blank line and any body split back into that
   header and that body.
   */
  lemma SplitJoined(header: seq<string>, body: seq<string>)
    requires forall j :: 0 <= j < |header| ==> header[j] != Blank
    ensures Header(header + [Blank] + body) == header
    ensures BodyLines(header + [Blank] + body) == body
  {
    var lines := header + [Blank] + body;
    assert lines[|header|] == Blank;
    assert forall j :: 0 <= j < |header| ==> lines[j] == header[j];
    assert FirstBlank(lines) == Some(|header|);
    assert lines[..|header|] == header;
    assert lines[|header| + 1..] == body;
  }

  /** A header written from clean pairs holds no blank line and parses back into those pairs. */
  lemma ParseFormatHeader(entries: seq<Entry>)
    requires forall e <- entries :: Clean(e.key) && Clean(e.value)
    ensures forall j :: 0 <= j < |entries| ==> FormatHeader(entries)[j] != Blank
    ensures ParseHeader(FormatHeader(entries)) == Success(entries)
  {
    var header := FormatHeader(entries);
    forall j | 0 <= j < |entries|
      ensures header[j] != Blank && ParseLine(header[j]) == Success(entries[j])
    {
      var e := entries[j];
      assert header[j][|e.key|] == ':';
      ParseFormatLine(e);
    }
    var parsed := ParseHeader(header);
    assert parsed.Success?;
    assert parsed.value == entries;
  }

  /**
   Writing clean pairs as a header, a blank line and a body, then loading
   the result into a fresh document, recovers the pairs (later duplicates
   winning) and the body text.
   */
  lemma LoadFormatted(path: string, parts: seq<string>, entries: seq<Entry>, body: seq<string>)
    requires forall e <- entries :: Clean(e.key) && Clean(e.value)
    requires |parts| >= 2
    ensures Load(map[], path, parts, FormatHeader(entries) + [Blank] + body)
      == Success(Doc(Stem(parts[1]), path, BuildMeta(entries), Concat(body)))
  {
    ParseFormatHeader(entries);
    SplitJoined(FormatHeader(entries), body);
  }

  /** The name document.py's own test expects for `documents/index`. */
  lemma IndexName()
    ensures DeriveName(["documents", "index"]) == Success("index")
  {
    StemWithoutDot();
  }

  /** Only the second component survives: a nested page is named after its directory. */
  lemma NestedPathName()
    ensures DeriveName(["documents", "blog", "post.md"]) == Success("blog")
  {
  }
}
