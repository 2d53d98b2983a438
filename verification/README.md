# Document loader model

A Dafny model of the document loader of a small static-site generator
(`document.py`). A document file is a header of `key: value` metadata lines,
a line holding nothing but a newline, and a Markdown body. `Document.load`
splits the file at that blank line, turns each header line into a metadata
entry, keeps the rest of the file verbatim as the Markdown text, and names
the document after its path. `Document.__getattr__` makes every metadata key
readable as if it were an attribute of the document.

The model is functional. The file is a `seq<string>` of lines, as Python's
file iteration yields them: each line keeps its `"\n"`, except possibly the
last. The path is the `seq<string>` of components that `pathlib` splits it
into. Loading returns either a `Doc` or a `LoadError`.

Modules:

- `Wrappers` (wrappers.dfy): `Option` and `Result`.
- `Text` (text.dfy): the Python string operations the loader uses. These are `str.isspace`, `str.strip()`, `str.split(":")` and `"".join(...)`.
- `Paths` (paths.dfy): `os.path.splitext` with `/` as the separator, and the stem it leaves.
- `Metadata` (metadata.dfy): parsing one header line, and building the metadata map from the parsed entries.
- `Document` (document.dfy): the header/body split, `load`, name derivation and attribute lookup.

Behaviour modelled as the code has it:

- Only a line exactly equal to `"\n"` ends the header. A line of spaces, or `"\r\n"`, is a header line. So is the last line when it has no newline.
- `key, value = line.split(":")` needs exactly two fields. A header line with no colon fails, and so does one with two or more colons. The error records how many fields the split produced. A value that itself contains a colon, such as a URL, therefore makes the load fail.
- `load` assigns into the metadata map the document already holds and never clears it. `Document()` starts that map empty, so a first load builds it from the header alone. A second load on the same object keeps every key of the first file that the second header does not set. `Load` therefore takes the prior map as a parameter.
- The loader parses the header before it derives the name. A malformed header line is therefore reported even when the path is also unusable.
- The name is path component 1 with its extension removed. The rest of the path is dropped, so `documents/blog/post.md` is named `blog`. This comes from `os.path.join(parts[1:])[0]`. It relies on `os.path.join` returning a single argument unchanged, which is what Python 3.4's `posixpath.join` does. From Python 3.5 on, that line raises `TypeError` for every path. The model follows the behaviour the file's own test expects: `documents/index` is named `index`.
- `str.strip()` removes exactly the characters `str.isspace` accepts. That covers the ASCII whitespace characters, the separators U+001C to U+001F, and the Unicode space characters.

## Model

| member | source | states |
|---|---|---|
| Text.Split | document.py:41 | `line.split(":")` produces one more piece than the line has colons. No piece contains a colon. Joining the pieces with colons gives the line back. |
| Text.SplitJoin | document.py:41 | Splitting undoes joining whenever no piece contains the separator. Together with `Split`'s contract, this makes splitting a bijection onto separator-free piece lists. |
| Text.StripSlices | document.py:42 | `strip()` returns a contiguous slice of its input. Only whitespace lies on either side of the slice, and the slice itself neither starts nor ends with whitespace. |
| Text.StripPadded | document.py:42 | Conversely, any whitespace-free-ended core with whitespace on both sides strips to exactly that core. This makes the strip result unique. |
| Text.StripIdempotent | document.py:42 | Stripping an already stripped key or value changes nothing. |
| Text.ConcatAppend | document.py:43 | `"".join` of two runs of lines is the join of the first run followed by the join of the second. |
| Metadata.ParseLine | document.py:41-42 | A header line parses exactly when it contains exactly one colon. Otherwise the error gives the field count (colons plus one), which is never two. |
| Metadata.ParseLineFields | document.py:41-42 | The key of a parsed line is the stripped text before its only colon, and the value is the stripped text after it. Neither the key nor the value contains a colon, and neither starts or ends with whitespace, so the value loses its trailing newline. |
| Metadata.FormatLineIsOneLine | document.py:37-42 | A pair with no colon, no edge whitespace and no line-break character is written as a single file line: its only line break is the final `"\n"`. |
| Metadata.ParseFormatLine | document.py:41-42 | Writing a pair with no colon, no edge whitespace and no line-break character as `key: value\n` and parsing that line gives the same pair back. |
| Metadata.LastValueIsLast | document.py:42 | The reference lookup finds a key exactly when some entry has it. It then yields the value of an entry with that key that no later entry shares the key with. |
| Metadata.AssignLastWins | document.py:37-42 | Running the loop's `meta[key] = value` over the entries in order gives each entry key the value of its last entry. Keys that no entry has keep the value they had before. |
| Metadata.MetaLastWins | document.py:42 | The metadata map holds exactly the keys some header entry has. Each key maps to the value of the last entry with that key, so later lines overwrite earlier ones. |
| Paths.LastIndexOf | document.py:46 | The `rfind` in `splitext` returns the index of the last occurrence of the character, or -1 when there is none. |
| Paths.SplitExt | document.py:46 | Root plus extension is the original component. The extension is empty or starts at the component's last dot, and it holds no other dot and no `/`. An extension is split off only when a non-dot character precedes that dot in the final component. |
| Paths.StemWithoutDot | document.py:46 | `index` keeps its whole text as its name. |
| Paths.StemDoubleExtension | document.py:46 | Only the last extension is removed: `archive.tar.gz` becomes `archive.tar`. |
| Paths.StemHiddenFile | document.py:46 | A leading dot is not an extension: `.profile` stays `.profile`. |
| Document.FirstBlank | document.py:37-39 | Returns the index of the first line equal to `"\n"`; no earlier line is blank. It returns nothing only when no line is blank. |
| Document.Header | document.py:37-42 | The header is the longest blank-free prefix of the lines. Either it is the whole file, or the line right after it is `"\n"`. |
| Document.BodyLines | document.py:38-43 | The header, the blank line and the body lines rebuild the file. The blank line belongs to neither the header nor the body. Without a blank line the body has no lines. |
| Document.ParseHeader | document.py:37-42 | On success every header line parses, and the result holds one entry per line, in order. On failure it reports the first malformed line, with that line's index and field count; every earlier line parses. |
| Document.DeriveName | document.py:45-46 | A name exists exactly when the path has at least two components. The name plus the extension of component 1 is component 1. A shorter path fails with its component count. |
| Document.Load | document.py:32-46 | Loading succeeds exactly when every header line has one colon and the path has two or more components. A malformed header line is reported in preference to a bad path. The reported line is a header line without exactly one colon, and every earlier line has exactly one. A loaded document keeps its path and carries the derived name. |
| Document.LoadReassembles | document.py:37-43 | When a blank line exists, the joined header lines, then `"\n"`, then the body give the whole file text. The body is therefore every later line, unmodified. |
| Document.LoadWithoutBlank | document.py:37-43 | Without a blank line the body is empty. Every line is parsed as metadata and contributes its key. |
| Document.LoadedMeta | document.py:22-42 | After a load, a key is in the metadata exactly when some header line carries it or the document already held it. A header key takes the value on the last header line carrying it. Any other key keeps its earlier value. |
| Document.GetAttr | document.py:28-30 | Reading a non-field name never fails. It gives the metadata value when the key is present and an absent value otherwise. Only `meta` reads as the whole table. |
| Document.LoadedAttribute | document.py:22-42 | After a load, reading a non-field name gives the value on the last header line with that key. When no header line has the key, it gives the value the document already held. When the document never held it either, the result is absent rather than an error. |
| Document.SplitJoined | document.py:37-43 | Any blank-free header, then `"\n"`, then any body splits back into exactly that header and that body. This is the inverse of `BodyLines`. |
| Document.ParseFormatHeader | document.py:37-42 | A header written from pairs with no colon, no edge whitespace and no line-break character contains no blank line, and it parses back into the same pairs in order. |
| Document.LoadFormatted | document.py:19-46 | Write pairs with no colon, no edge whitespace and no line-break character as a header, then a blank line, then a body. Loading the result into a fresh `Document()` gives back the pairs (later duplicates winning). It also gives back the body text, the path and the stem of component 1. |
| Document.IndexName | document.py:45-46 | The path `documents/index` gives the name `index`. |
| Document.NestedPathName | document.py:45-46 | Only component 1 survives, so `documents/blog/post.md` is named `blog`. |

## Left out

- File access: `codecs.open`, UTF-8 decoding and the errors for a missing or unreadable file are not modelled. The model starts from the decoded lines.
- Line splitting: the model does not reproduce how the codec reader breaks text into lines. The codec reader also breaks at `\r`, `\x0b`, `\x0c` and similar characters. The model takes the lines as given.
- Path parsing: `pathlib.Path(path).parts` is not modelled (collapsing repeated slashes, dropping `.` components, the root component). The model takes the components as given.
- Partial state on failure: `load` sets `path`, and part of `meta`, before an exception escapes. The model returns only the error.
- Document.GetAttr: covers the four instance attributes and the metadata fallback. It does not cover class-level attributes such as `load` or `__repr__`, which Python resolves before `__getattr__` is called. It also does not cover the `None` fields of a document that was never loaded.
- Logging, `__repr__` and the pytest harness are left out. They have no effect on the loaded document.
- markdown_extensions.py: the link and image rewriting is left out. Which text counts as a link or image, and the HTML produced, come from the external Python-Markdown library. Only the placeholder string formats are local to the file.
