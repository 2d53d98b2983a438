/**
 One metadata header line (`key: value`) and the map the header lines
 build up, as document.py does it in `Document.load`.
 */
module Metadata {
  import opened Wrappers
  import opened Text

  /** The stripped key and value read from one header line. */
  datatype Entry = Entry(key: string, value: string)

  /**
   `key, value = line.split(":")` followed by stripping both halves. The
   unpack needs exactly two fields, so a line with no colon or with two or
   more colons fails; the error carries the number of fields found.
   */
  function ParseLine(line: string): (r: Result<Entry, nat>)
    ensures r.Success? <==> Count(line, ':') == 1
    ensures r.Failure? ==> r.error == Count(line, ':') + 1 && r.error != 2
  {
    var fields := Split(line, ':');
    if |fields| == 2 then Success(Entry(Strip(fields[0]), Strip(fields[1])))
    else Failure(|fields|)
  }

  /**
   A header line that parses is cut at its one colon: the key is the
   stripped text before it, the value the stripped text after it. Neither
   contains a colon, and neither starts or ends with whitespace, so the
   value has lost the line's newline.
   */
  lemma ParseLineFields(line: string)
    requires ParseLine(line).Success?
    ensures exists i :: (0 <= i < |line| && line[i] == ':' && ':' !in line[..i] && ':' !in line[i + 1..]
      && ParseLine(line).value == Entry(Strip(line[..i]), Strip(line[i + 1..])))
    ensures ':' !in ParseLine(line).value.key && ':' !in ParseLine(line).value.value
    ensures Trimmed(ParseLine(line).value.key) && Trimmed(ParseLine(line).value.value)
  {
    var fields := Split(line, ':');
    var i := |fields[0]|;
    assert Join(fields[1..], ':') == fields[1];
    assert line == fields[0] + [':'] + fields[1];
    assert line[..i] == fields[0] && line[i + 1..] == fields[1];
    StripKeepsOut(fields[0], ':');
    StripKeepsOut(fields[1], ':');
    StripSlices(fields[0]);
    StripSlices(fields[1]);
  }

  /** No character of `s` breaks a line. */
  predicate SingleLine(s: string) {
    forall k :: 0 <= k < |s| ==> !IsLineBreak(s[k])
  }

  /**
   A key or value the line format can carry back unchanged: no colon, no
   whitespace at either end, and nothing that would split the written line
   in two when the file is read back.
   */
  predicate Clean(s: string) {
    ':' !in s && Trimmed(s) && SingleLine(s)
  }

  /** The header line a `key: value` pair is written as. */
  function FormatLine(e: Entry): string {
    e.key + ": " + e.value + "\n"
  }

  /**
   The line a clean pair is written as is one line of a file: its only line
   break is the newline that ends it.
   */
  lemma FormatLineIsOneLine(e: Entry)
    requires Clean(e.key) && Clean(e.value)
    ensures FormatLine(e)[|FormatLine(e)| - 1] == '\n'
    ensures forall k :: 0 <= k < |FormatLine(e)| - 1 ==> !IsLineBreak(FormatLine(e)[k])
  {
    var line := FormatLine(e);
    var n := |e.key|;
    forall k | 0 <= k < |line| - 1
      ensures !IsLineBreak(line[k])
    {
      if k < n {
        assert line[k] == e.key[k];
      } else if k >= n + 2 {
        assert line[k] == e.value[k - n - 2];
      }
    }
  }

  /** Writing a clean pair as a header line and parsing that line gives the pair back. */
  lemma ParseFormatLine(e: Entry)
    requires Clean(e.key) && Clean(e.value)
    ensures ParseLine(FormatLine(e)) == Success(e)
  {
    var rest := " " + e.value + "\n";
    var fields := [e.key, rest];
    assert ':' !in rest;
    assert Join(fields[1..], ':') == rest;
    assert FormatLine(e) == Join(fields, ':');
    SplitJoin(fields, ':');
    assert Split(FormatLine(e), ':') == fields;
    StripPadded([], e.key, []);
    assert [] + e.key + [] == e.key;
    StripPadded(" ", e.value, "\n");
  }

  /** The value of the last entry with key `key`, if any. */
  function LastValue(entries: seq<Entry>, key: string): Option<string> {
    if |entries| == 0 then None
    else if entries[|entries| - 1].key == key then Some(entries[|entries| - 1].value)
    else LastValue(entries[..|entries| - 1], key)
  }

  /**
   `LastValue` finds a key exactly when some entry has it, and then it gives
   the value of an entry with that key that no later entry shares the key with.
   */
  lemma {:induction false} LastValueIsLast(entries: seq<Entry>, key: string)
    ensures LastValue(entries, key).None? <==> forall j :: 0 <= j < |entries| ==> entries[j].key != key
    ensures LastValue(entries, key).Some? ==> exists j :: (0 <= j < |entries|
      && entries[j] == Entry(key, LastValue(entries, key).value)
      && forall j' :: j < j' < |entries| ==> entries[j'].key != key)
  {
    if |entries| == 0 {
    } else if entries[|entries| - 1].key == key {
      var last := |entries| - 1;
      assert entries[last] == Entry(key, LastValue(entries, key).value);
    } else {
      var init := entries[..|entries| - 1];
      LastValueIsLast(init, key);
      assert LastValue(entries, key) == LastValue(init, key);
      assert forall j :: 0 <= j < |init| ==> init[j] == entries[j];
      if LastValue(init, key).Some? {
        var j :| 0 <= j < |init| && init[j] == Entry(key, LastValue(init, key).value)
          && forall j' :: j < j' < |init| ==> init[j'].key != key;
        assert forall j' :: j < j' < |entries| ==> entries[j'].key != key;
      }
    }
  }

  /**
   The header loop of `Document.load`: `meta[key] = value` for each entry
   in order, starting from `meta`.
   */
  function Assign(meta: map<string, string>, entries: seq<Entry>): map<string, string>
    decreases |entries|
  {
    if |entries| == 0 then meta
    else Assign(meta[entries[0].key := entries[0].value], entries[1..])
  }

  /** The metadata map a header yields, starting from the empty map of `Document()`. */
  function BuildMeta(entries: seq<Entry>): map<string, string> {
    Assign(map[], entries)
  }

  lemma {:induction false} LastValueCons(e: Entry, rest: seq<Entry>, key: string)
    ensures LastValue([e] + rest, key) ==
      if LastValue(rest, key).Some? then LastValue(rest, key)
      else if e.key == key then Some(e.value) else None
    decreases |rest|
  {
    var all := [e] + rest;
    if rest != [] {
      assert all[|all| - 1] == rest[|rest| - 1];
      assert all[..|all| - 1] == [e] + rest[..|rest| - 1];
      LastValueCons(e, rest[..|rest| - 1], key);
    } else {
      assert all == [e];
    }
  }

  /**
   Assigning the entries in order leaves each key with the value of the
   last entry that has it, and keys no entry has as they were.
   */
  lemma {:induction false} AssignLastWins(meta: map<string, string>, entries: seq<Entry>, key: string)
    ensures key in Assign(meta, entries) <==> LastValue(entries, key).Some? || key in meta
    ensures key in Assign(meta, entries) ==>
      Assign(meta, entries)[key] == if LastValue(entries, key).Some? then LastValue(entries, key).value else meta[key]
    decreases |entries|
  {
    if entries != [] {
      var e := entries[0];
      AssignLastWins(meta[e.key := e.value], entries[1..], key);
      assert entries == [e] + entries[1..];
      LastValueCons(e, entries[1..], key);
    }
  }

  /**
   The header's metadata map holds exactly the keys some entry has, each
   with the value of the last entry that has it: later lines overwrite
   earlier ones.
   */
  lemma MetaLastWins(entries: seq<Entry>, key: string)
    ensures key in BuildMeta(entries) <==> exists j :: 0 <= j < |entries| && entries[j].key == key
    ensures key in BuildMeta(entries) ==> LastValue(entries, key).Some? && BuildMeta(entries)[key] == LastValue(entries, key).value
  {
    AssignLastWins(map[], entries, key);
    LastValueIsLast(entries, key);
  }
}
