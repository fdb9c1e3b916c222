/** UnifiedTuitionSystem.FileManager: a data file is a list of lines. Reading
    trims every line and drops blank ones; the handlers then rewrite the list
    they read, so whatever they write has been through this normalisation. */
module RecordStore {
  import opened JavaText
  import opened Sequences

  type Lines = seq<string>

  /** What a line looks like once read: trimmed and not empty. */
  predicate IsStoredLine(l: string) {
    l != "" && IsTrimmed(l)
  }

  /** FileManager.readAllLines: every non-blank line, trimmed, in file order. */
  function ReadAllLines(raw: Lines): (r: Lines)
    ensures |r| <= |raw|
    ensures forall i :: 0 <= i < |r| ==> IsStoredLine(r[i])
  {
    if |raw| == 0 then []
    else
      var t := Trim(raw[0]);
      assert raw == [raw[0]] + raw[1..];
      (if t == "" then [] else [t]) + ReadAllLines(raw[1..])
  }

  /** A line is read exactly when it is the trimmed form of a non-blank line
      of the file. */
  lemma {:induction false} ReadAllLinesMembers(raw: Lines, x: string)
    ensures x in ReadAllLines(raw) <==> exists i :: 0 <= i < |raw| && Trim(raw[i]) == x && x != ""
    decreases |raw|
  {
    if |raw| > 0 {
      var t := Trim(raw[0]);
      var rest := raw[1..];
      var head: Lines := if t == "" then [] else [t];
      assert ReadAllLines(raw) == head + ReadAllLines(rest);
      ReadAllLinesMembers(rest, x);
      if x in ReadAllLines(rest) {
        var i :| 0 <= i < |rest| && Trim(rest[i]) == x && x != "";
        assert raw[i + 1] == rest[i];
      }
      if exists i :: 0 <= i < |raw| && Trim(raw[i]) == x && x != "" {
        var i :| 0 <= i < |raw| && Trim(raw[i]) == x && x != "";
        if i > 0 {
          assert rest[i - 1] == raw[i];
        }
      }
    }
  }

  /** Reading keeps the relative order of lines: it works piecewise. */
  lemma {:induction false} ReadAllLinesAppend(a: Lines, b: Lines)
    ensures ReadAllLines(a + b) == ReadAllLines(a) + ReadAllLines(b)
    decreases |a|
  {
    if |a| > 0 {
      var t := Trim(a[0]);
      var head: Lines := if t == "" then [] else [t];
      assert (a + b)[0] == a[0];
      assert (a + b)[1..] == a[1..] + b;
      assert ReadAllLines(a + b) == head + ReadAllLines(a[1..] + b);
      assert ReadAllLines(a) == head + ReadAllLines(a[1..]);
      ReadAllLinesAppend(a[1..], b);
      var ra, rb := ReadAllLines(a[1..]), ReadAllLines(b);
      assert head + (ra + rb) == (head + ra) + rb;
    } else {
      assert a + b == b;
    }
  }

  /** Lines that are already trimmed and non-blank are read back unchanged. */
  lemma {:induction false} ReadAllLinesOfStored(lines: Lines)
    requires forall i :: 0 <= i < |lines| ==> IsStoredLine(lines[i])
    ensures ReadAllLines(lines) == lines
    decreases |lines|
  {
    if |lines| > 0 {
      ReadAllLinesOfStored(lines[1..]);
    }
  }

  /** FileManager.appendLine of a stored line: the next read ends with it. */
  lemma AppendStoredLine(raw: Lines, line: string)
    requires IsStoredLine(line)
    ensures ReadAllLines(raw + [line]) == ReadAllLines(raw) + [line]
  {
    ReadAllLinesAppend(raw, [line]);
    ReadAllLinesOfStored([line]);
  }

  /** Writing back what was read and reading again gives the same list. */
  lemma ReadAfterWrite(raw: Lines)
    ensures ReadAllLines(ReadAllLines(raw)) == ReadAllLines(raw)
  {
    ReadAllLinesOfStored(ReadAllLines(raw));
  }
}
