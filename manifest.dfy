/** The CSV manifest: the header check for each mode, the comma split of the
    interfaces cell, and the byte-order-mark helper. */
module Manifest {

  /** The columns an upgrade manifest must have. */
  const CsvHeader: seq<string> :=
    ["serial_number", "software_version", "download_time", "upgrade_time",
     "interfaces", "download_interval", "upgrade_interval"]

  /** Whether the manifest's columns suit the mode: an abort manifest needs a
      serial_number column among any others; an upgrade manifest needs the
      same set of columns as CsvHeader. */
  predicate HeaderAccepted(columns: seq<string>, abort: bool)
  {
    if abort then "serial_number" in columns
    else ColumnSet(columns) == ColumnSet(CsvHeader)
  }

  /** The distinct column names, as Python's `set(columns)`. */
  function ColumnSet(columns: seq<string>): (r: set<string>)
    ensures forall c :: c in r <==> c in columns
  {
    set c | c in columns
  }

  /** Upgrade mode accepts exactly the column lists that hold every expected
      column and nothing else, in any order and with any repetition. */
  lemma UpgradeHeaderExact(columns: seq<string>)
    ensures HeaderAccepted(columns, false) <==>
      (forall c :: c in columns ==> c in CsvHeader) && (forall h :: h in CsvHeader ==> h in columns)
  {
    if (forall c :: c in columns ==> c in CsvHeader) && (forall h :: h in CsvHeader ==> h in columns) {
      assert ColumnSet(columns) == ColumnSet(CsvHeader);
    }
  }

  /** The verdict depends only on which columns occur. */
  lemma HeaderOrderIrrelevant(a: seq<string>, b: seq<string>, abort: bool)
    requires forall c :: c in a <==> c in b
    ensures HeaderAccepted(a, abort) == HeaderAccepted(b, abort)
  {
    assert ColumnSet(a) == ColumnSet(b);
  }

  /** An upgrade manifest is also a valid abort manifest. */
  lemma UpgradeHeaderServesAbort(columns: seq<string>)
    requires HeaderAccepted(columns, false)
    ensures HeaderAccepted(columns, true)
  {
    assert "serial_number" in ColumnSet(CsvHeader);
  }

  /** The upgrade header itself is accepted, and one without its last column
      is not. */
  lemma UpgradeHeaderItself()
    ensures HeaderAccepted(CsvHeader, false)
    ensures !HeaderAccepted(CsvHeader[..6], false)
  {
    var short := CsvHeader[..6];
    assert short == ["serial_number", "software_version", "download_time", "upgrade_time",
                     "interfaces", "download_interval"];
    assert forall c :: c in short ==> c != "upgrade_interval";
    assert "upgrade_interval" in ColumnSet(CsvHeader);
  }

  // ---------------------------------------------------------------------------
  // Splitting the interfaces cell on a separator, without trimming
  // ---------------------------------------------------------------------------

  /** The pieces of `s` between occurrences of `sep`, as Python's
      `str.split(sep)`: always at least one piece, empty pieces kept. */
  function Split(s: string, sep: char): (parts: seq<string>)
    ensures |parts| >= 1
    ensures forall k :: 0 <= k < |parts| ==> sep !in parts[k]
    decreases |s|
  {
    if s == [] then [""]
    else if s[0] == sep then [""] + Split(s[1..], sep)
    else
      var rest := Split(s[1..], sep);
      [[s[0]] + rest[0]] + rest[1..]
  }

  /** The pieces put back together with `sep` between them. */
  function Join(parts: seq<string>, sep: char): string
    requires |parts| >= 1
    decreases |parts|
  {
    if |parts| == 1 then parts[0] else parts[0] + [sep] + Join(parts[1..], sep)
  }

  /** Splitting loses nothing: joining the pieces gives the cell back. */
  lemma {:induction false} JoinSplit(s: string, sep: char)
    ensures Join(Split(s, sep), sep) == s
    decreases |s|
  {
    if s != [] {
      var rest := Split(s[1..], sep);
      JoinSplit(s[1..], sep);
      if s[0] == sep {
        assert ([""] + rest)[1..] == rest;
      } else {
        var parts := [[s[0]] + rest[0]] + rest[1..];
        if |rest| > 1 {
          assert parts[1..] == rest[1..];
          assert Join(rest, sep) == rest[0] + [sep] + Join(rest[1..], sep);
        }
        assert s == [s[0]] + s[1..];
      }
    }
  }

  /** A piece free of the separator glues onto the first piece of what follows. */
  lemma {:induction false} SplitPrefix(a: string, rest: string, sep: char)
    requires sep !in a
    ensures Split(a + rest, sep) == [a + Split(rest, sep)[0]] + Split(rest, sep)[1..]
    decreases |a|
  {
    if a != [] {
      SplitPrefix(a[1..], rest, sep);
      assert (a + rest)[1..] == a[1..] + rest;
      assert (a + rest)[0] == a[0];
      assert [a[0]] + (a[1..] + Split(rest, sep)[0]) == a + Split(rest, sep)[0];
    } else {
      assert a + rest == rest;
      var parts := Split(rest, sep);
      assert a + parts[0] == parts[0];
      assert parts == [parts[0]] + parts[1..];
    }
  }

  /** Pieces free of the separator are recovered by splitting their join. */
  lemma {:induction false} SplitJoin(parts: seq<string>, sep: char)
    requires |parts| >= 1
    requires forall k :: 0 <= k < |parts| ==> sep !in parts[k]
    ensures Split(Join(parts, sep), sep) == parts
    decreases |parts|
  {
    if |parts| == 1 {
      SplitPrefix(parts[0], [], sep);
      assert parts[0] + [] == parts[0];
    } else {
      var tail := Join(parts[1..], sep);
      SplitJoin(parts[1..], sep);
      assert ([sep] + tail)[0] == sep && ([sep] + tail)[1..] == tail;
      assert Split([sep] + tail, sep) == [""] + parts[1..];
      SplitPrefix(parts[0], [sep] + tail, sep);
      assert parts[0] + [sep] + tail == parts[0] + ([sep] + tail);
      assert ([""] + parts[1..])[1..] == parts[1..];
      assert parts[0] + ([""] + parts[1..])[0] == parts[0];
      assert [parts[0]] + parts[1..] == parts;
    }
  }

  // ---------------------------------------------------------------------------
  // The UTF-8 byte-order mark
  // ---------------------------------------------------------------------------

  newtype byte = x: int | 0 <= x < 256

  const Bom: seq<byte> := [0xEF, 0xBB, 0xBF]

  predicate StartsWithBom(line: seq<byte>)
  {
    |line| >= 3 && line[..3] == Bom
  }

  /** The line without one leading byte-order mark. */
  function RemoveBom(line: seq<byte>): (r: seq<byte>)
    ensures StartsWithBom(line) ==> line == Bom + r
    ensures !StartsWithBom(line) ==> r == line
  {
    if StartsWithBom(line) then line[3..] else line
  }

  /** Exactly one mark is removed: a doubled mark leaves one behind. */
  lemma RemoveBomOnce(s: seq<byte>)
    ensures RemoveBom(Bom + s) == s
    ensures RemoveBom(Bom + Bom + s) == Bom + s
  {
    assert (Bom + s)[..3] == Bom;
    assert (Bom + Bom + s)[..3] == Bom;
    assert (Bom + Bom + s)[3..] == Bom + s;
  }
}
