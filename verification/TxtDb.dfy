/** The text form of the certificate index: one row a line, fields separated by tabs. */
module TxtDb {
  import opened Wrappers

  type Fields = seq<string>

  const COMMENT := '#'

  // ----- writing -----

  function Escape(f: string): string {
    if f == "" then ""
    else (if f[0] == '\t' then "\\\t" else [f[0]]) + Escape(f[1..])
  }

  /** All fields with one separator between two of them. */
  function WriteFields(row: Fields): string
    requires row != []
  {
    if |row| == 1 then Escape(row[0]) else Escape(row[0]) + "\t" + WriteFields(row[1..])
  }

  predicate AllNonempty(rows: seq<Fields>) { forall i :: 0 <= i < |rows| ==> rows[i] != [] }

  function Write(rows: seq<Fields>): string
    requires AllNonempty(rows)
  {
    if rows == [] then "" else WriteFields(rows[0]) + "\n" + Write(rows[1..])
  }

  // ----- reading -----

  /** What is left to do inside one line: `done` fields are closed, `cur` is open, and the line still to scan is `f`.
      A separator after field `num` stops the scan; the line is then good only if nothing follows it. */
  function ScanFields(f: string, done: Fields, cur: string, num: nat): (r: Option<Fields>)
    decreases |f|
  {
    if f == "" then
      if |done| + 1 == num then Some(done + [cur]) else None
    else if f[0] == '\t' && !EndsInBackslash(cur) then
      if |done| + 1 >= num then
        if |done| + 1 == num && f[1..] == "" then Some(done + [cur]) else None
      else ScanFields(f[1..], done + [cur], "", num)
    else if f[0] == '\t' then
      ScanFields(f[1..], done, cur[..|cur| - 1] + "\t", num)
    else
      ScanFields(f[1..], done, cur + [f[0]], num)
  }

  predicate EndsInBackslash(s: string) { s != "" && s[|s| - 1] == '\\' }

  /** The scan of one line as the two moving cursors do it: `i` is in the line, `cur` is the field being copied. */
  method ScanLine(line: string, num: nat) returns (r: Option<Fields>)
    requires num >= 1
    ensures r == ScanFields(line, [], "", num)
  {
    var fields: Fields := [];
    var cur := "";
    var esc := false;
    var i := 0;
    var stopped := false;
    while i < |line| && !stopped
      invariant 0 <= i <= |line|
      invariant |fields| + 1 <= num
      invariant !stopped ==> esc == EndsInBackslash(cur)
      invariant !stopped ==> ScanFields(line[i..], fields, cur, num) == ScanFields(line, [], "", num)
      invariant stopped ==> |fields| + 1 == num
      invariant stopped ==>
          ScanFields(line, [], "", num) == if i == |line| then Some(fields + [cur]) else None
    {
      assert line[i..][1..] == line[i + 1..];
      if line[i] == '\t' && !esc {
        i := i + 1;
        if |fields| + 1 >= num {
          stopped := true;
        } else {
          fields, cur := fields + [cur], "";
        }
      } else {
        if line[i] == '\t' { cur := cur[..|cur| - 1]; }
        esc := line[i] == '\\';
        cur := cur + [line[i]];
        i := i + 1;
      }
    }
    if |fields| + 1 != num || i < |line| {
      r := None;
    } else {
      r := Some(fields + [cur]);
    }
  }

  /** Position of the first line end, or the length. */
  function LineEnd(text: string): (n: nat)
    ensures n <= |text|
    ensures n < |text| ==> text[n] == '\n'
    ensures '\n' !in text[..n]
  {
    if text == "" || text[0] == '\n' then 0 else 1 + LineEnd(text[1..])
  }

  /** A line without an end at the end of the file is dropped; comment lines are skipped. */
  function Read(text: string, num: nat): Option<seq<Fields>>
    decreases |text|
  {
    var n := LineEnd(text);
    if n == |text| then Some([])
    else if n > 0 && text[0] == COMMENT then Read(text[n + 1..], num)
    else
      var row := ScanFields(text[..n], [], "", num);
      var rest := Read(text[n + 1..], num);
      if row.None? || rest.None? then None else Some([row.value] + rest.value)
  }

  // ----- what survives the trip -----

  /** No field holds a line end, no field but the last ends in a backslash, and the line does not look like a
      comment. */
  predicate Storable(row: Fields, num: nat) {
    && |row| == num
    && (forall i :: 0 <= i < num ==> '\n' !in row[i])
    && (forall i :: 0 <= i < num - 1 ==> !EndsInBackslash(row[i]))
    && (num > 0 && row[0] != "" ==> row[0][0] != COMMENT)
  }

  predicate AllStorable(rows: seq<Fields>, num: nat) {
    forall i :: 0 <= i < |rows| ==> Storable(rows[i], num)
  }

  // ----- proofs -----

  /** An escaped tab is taken into the field. */
  lemma ScanEscapedTab(rest: string, done: Fields, cur: string, num: nat)
    ensures ScanFields("\\" + ("\t" + rest), done, cur, num) == ScanFields(rest, done, cur + "\t", num)
  {
    var s := "\\" + ("\t" + rest);
    assert s[1..] == "\t" + rest && ("\t" + rest)[1..] == rest;
    assert (cur + "\\")[..|cur|] == cur;
    assert ScanFields(s, done, cur, num) == ScanFields("\t" + rest, done, cur + "\\", num);
  }

  /** Any other character but a tab is taken as it is. */
  lemma ScanPlain(c: char, rest: string, done: Fields, cur: string, num: nat)
    requires c != '\t'
    ensures ScanFields([c] + rest, done, cur, num) == ScanFields(rest, done, cur + [c], num)
  {
    assert ([c] + rest)[1..] == rest;
  }

  lemma {:induction false} ScanEscaped(f: string, tail: string, done: Fields, cur: string, num: nat)
    ensures ScanFields(Escape(f) + tail, done, cur, num) == ScanFields(tail, done, cur + f, num)
    decreases |f|
  {
    hide ScanFields;
    if f == "" {
      assert Escape(f) + tail == tail && cur + f == cur;
    } else {
      var rest := Escape(f[1..]) + tail;
      assert cur + f == (cur + [f[0]]) + f[1..];
      ScanEscaped(f[1..], tail, done, cur + [f[0]], num);
      if f[0] == '\t' {
        assert Escape(f) + tail == "\\" + ("\t" + rest);
        ScanEscapedTab(rest, done, cur, num);
      } else {
        assert Escape(f) + tail == [f[0]] + rest;
        ScanPlain(f[0], rest, done, cur, num);
      }
    }
  }

  lemma {:induction false} ScanWritten(row: Fields, done: Fields, num: nat)
    requires row != [] && |done| + |row| == num
    requires forall i :: 0 <= i < |row| - 1 ==> !EndsInBackslash(row[i])
    ensures ScanFields(WriteFields(row), done, "", num) == Some(done + row)
    decreases |row|
  {
    if |row| == 1 {
      ScanEscaped(row[0], "", done, "", num);
      assert Escape(row[0]) + "" == Escape(row[0]) && "" + row[0] == row[0];
      assert row == [row[0]];
    } else {
      var tail := "\t" + WriteFields(row[1..]);
      assert WriteFields(row) == Escape(row[0]) + tail;
      ScanEscaped(row[0], tail, done, "", num);
      assert "" + row[0] == row[0] && tail[1..] == WriteFields(row[1..]);
      ScanWritten(row[1..], done + [row[0]], num);
      assert done + [row[0]] + row[1..] == done + row;
    }
  }

  lemma {:induction false} EscapeKeepsLines(f: string)
    requires '\n' !in f
    ensures '\n' !in Escape(f)
    ensures f != "" ==> Escape(f) != "" && (Escape(f)[0] == f[0] || Escape(f)[0] == '\\')
  {
    if f != "" {
      assert '\n' !in f[1..];
      EscapeKeepsLines(f[1..]);
    }
  }

  lemma {:induction false} WriteKeepsLines(row: Fields)
    requires row != []
    requires forall i :: 0 <= i < |row| ==> '\n' !in row[i]
    requires row[0] != "" ==> row[0][0] != COMMENT
    ensures '\n' !in WriteFields(row)
    ensures WriteFields(row) != "" ==> WriteFields(row)[0] != COMMENT
    decreases |row|
  {
    EscapeKeepsLines(row[0]);
    if |row| > 1 {
      assert forall i :: 0 <= i < |row[1..]| ==> row[1..][i] == row[i + 1];
      WriteTail(row[1..]);
      assert WriteFields(row) == Escape(row[0]) + ("\t" + WriteFields(row[1..]));
    }
  }

  lemma {:induction false} WriteTail(row: Fields)
    requires row != []
    requires forall i :: 0 <= i < |row| ==> '\n' !in row[i]
    ensures '\n' !in WriteFields(row)
    decreases |row|
  {
    EscapeKeepsLines(row[0]);
    if |row| > 1 {
      assert forall i :: 0 <= i < |row[1..]| ==> row[1..][i] == row[i + 1];
      WriteTail(row[1..]);
    }
  }

  lemma {:induction false} LineEndOf(line: string, rest: string)
    requires '\n' !in line
    ensures LineEnd(line + "\n" + rest) == |line|
  {
    var text := line + "\n" + rest;
    if line == "" {
      assert text[0] == '\n';
    } else {
      assert text[0] == line[0];
      assert text[1..] == line[1..] + "\n" + rest;
      LineEndOf(line[1..], rest);
    }
  }

  /** One written line in front of any text is read as its row. */
  lemma RowComesBack(row: Fields, rest: string, num: nat)
    requires num >= 1 && Storable(row, num)
    ensures var r, text := Read(rest, num), WriteFields(row) + "\n" + rest;
            Read(text, num) == if r.None? then None else Some([row] + r.value)
  {
    var line := WriteFields(row);
    var text := line + "\n" + rest;
    WriteKeepsLines(row);
    LineEndOf(line, rest);
    ScanWritten(row, [], num);
    hide WriteFields, ScanFields, Storable;
    assert [] + row == row;
    assert text[..|line|] == line && text[|line| + 1..] == rest;
  }

  lemma {:induction false} StorableComesBack(rows: seq<Fields>, num: nat)
    requires num >= 1 && AllStorable(rows, num)
    ensures AllNonempty(rows) && Read(Write(rows), num) == Some(rows)
    decreases |rows|
  {
    if rows != [] {
      var rest := rows[1..];
      assert Storable(rows[0], num);
      StorableComesBack(rest, num);
      RowComesBack(rows[0], Write(rest), num);
      hide Read, Storable;
      assert rows == [rows[0]] + rest;
    }
  }

  /** Whatever a scan yields has no line end and no field but the last that ends in a backslash. */
  lemma {:induction false} ScanYields(f: string, done: Fields, cur: string, num: nat)
    requires '\n' !in f && '\n' !in cur
    requires forall i :: 0 <= i < |done| ==> '\n' !in done[i] && !EndsInBackslash(done[i])
    ensures var r := ScanFields(f, done, cur, num);
            r.Some? ==>
              && |r.value| == num && |done| < num && done <= r.value
              && (forall i :: 0 <= i < num ==> '\n' !in r.value[i])
              && (forall i :: 0 <= i < num - 1 ==> !EndsInBackslash(r.value[i]))
              && (|done| == 0 && cur != "" && cur != "\\" ==> r.value[0] != "" && r.value[0][0] == cur[0])
              && (|done| == 0 && cur == "\\" ==> r.value[0] != "" && r.value[0][0] in "\\\t")
    decreases |f|
  {
    if f != "" {
      if f[0] == '\t' && !EndsInBackslash(cur) {
        if |done| + 1 < num {
          ScanYields(f[1..], done + [cur], "", num);
        }
      } else if f[0] == '\t' {
        ScanYields(f[1..], done, cur[..|cur| - 1] + "\t", num);
      } else {
        ScanYields(f[1..], done, cur + [f[0]], num);
      }
    }
  }

  lemma {:induction false} ScanLineYields(line: string, num: nat)
    requires num >= 1 && '\n' !in line
    requires line != "" ==> line[0] != COMMENT
    ensures var r := ScanFields(line, [], "", num); r.Some? ==> Storable(r.value, num)
  {
    ScanYields(line, [], "", num);
    if line != "" && line[0] != '\t' {
      ScanYields(line[1..], [], "" + [line[0]], num);
    } else if line != "" && num > 1 {
      ScanYields(line[1..], [""], "", num);
      assert [] + [""] == [""];
    }
  }

  lemma {:induction false} ReadYieldsStorable(text: string, num: nat)
    requires num >= 1
    ensures Read(text, num).Some? ==> AllStorable(Read(text, num).value, num)
    decreases |text|
  {
    var n := LineEnd(text);
    if n < |text| {
      ReadYieldsStorable(text[n + 1..], num);
      if !(n > 0 && text[0] == COMMENT) {
        ScanLineYields(text[..n], num);
      }
    }
  }

  /** Saving and loading returns the same rows exactly for storable rows. */
  lemma RoundTripExactly(rows: seq<Fields>, num: nat)
    requires num >= 1 && AllNonempty(rows)
    ensures Read(Write(rows), num) == Some(rows) <==> AllStorable(rows, num)
  {
    if AllStorable(rows, num) { StorableComesBack(rows, num); }
    ReadYieldsStorable(Write(rows), num);
  }

  /** Every file that loads can be written out again and loads to the same rows. */
  lemma ReloadIsStable(text: string, num: nat)
    requires num >= 1 && Read(text, num).Some?
    ensures AllNonempty(Read(text, num).value)
    ensures Read(Write(Read(text, num).value), num) == Read(text, num)
  {
    ReadYieldsStorable(text, num);
    StorableComesBack(Read(text, num).value, num);
  }

  // ----- what becomes of a row that cannot be stored -----

  /** A line with too few fields, or with a field in the middle that ends in a backslash, is refused. */
  lemma {:induction false} ScanShort(row: Fields, done: Fields, cur: string, num: nat)
    requires row != [] && |done| + |row| <= num
    requires || |done| + |row| < num
             || (|row| > 1 && EndsInBackslash(cur + row[0]))
             || exists i :: 1 <= i < |row| - 1 && EndsInBackslash(row[i])
    ensures ScanFields(WriteFields(row), done, cur, num) == None
    decreases |row|
  {
    var c := cur + row[0];
    if |row| == 1 {
      ScanEscaped(row[0], "", done, cur, num);
      assert Escape(row[0]) + "" == Escape(row[0]);
    } else {
      var rest := row[1..];
      var tail := "\t" + WriteFields(rest);
      assert WriteFields(row) == Escape(row[0]) + tail && tail[1..] == WriteFields(rest);
      ScanEscaped(row[0], tail, done, cur, num);
      if EndsInBackslash(c) {
        ScanShort(rest, done, c[..|c| - 1] + "\t", num);
      } else {
        if |done| + |row| == num {
          var i :| 1 <= i < |row| - 1 && EndsInBackslash(row[i]);
          assert rest[i - 1] == row[i] && "" + rest[0] == rest[0];
        }
        ScanShort(rest, done + [c], "", num);
      }
    }
  }

  lemma {:induction false} EscapeAppend(a: string, b: string)
    ensures Escape(a + b) == Escape(a) + Escape(b)
  {
    if a == "" {
      assert a + b == b;
    } else {
      assert (a + b)[1..] == a[1..] + b;
      EscapeAppend(a[1..], b);
    }
  }

  /** The first line of a written row whose field `i` has a line end behind `a`. */
  lemma {:induction false} CutWritten(row: Fields, i: nat, a: string, b: string) returns (tail: string)
    requires i < |row| && row[i] == a + "\n" + b
    ensures WriteFields(row) == WriteFields(row[..i] + [a]) + "\n" + tail
    ensures i == |row| - 1 ==> tail == Escape(b)
    decreases |row|
  {
    var cut := row[..i] + [a];
    if i == 0 {
      EscapeAppend(a + "\n", b);
      EscapeAppend(a, "\n");
      assert Escape("\n") == "\n";
      assert cut == [a];
      tail := Escape(b) + if |row| == 1 then "" else "\t" + WriteFields(row[1..]);
    } else {
      assert cut[1..] == row[1..][..i - 1] + [a];
      tail := CutWritten(row[1..], i - 1, a, b);
    }
  }

  /** A line end splits a field at its first line end. */
  lemma FirstLineEnd(f: string) returns (a: string, b: string)
    requires '\n' in f
    ensures f == a + "\n" + b && '\n' !in a
  {
    var n := LineEnd(f);
    assert f[..|f|] == f;
    a, b := f[..n], f[n + 1..];
    assert f[n..n + 1] == "\n";
    assert f == f[..n] + f[n..n + 1] + f[n + 1..];
  }

  lemma {:induction false} FirstBadField(row: Fields) returns (i: nat)
    requires exists k :: 0 <= k < |row| && '\n' in row[k]
    ensures i < |row| && '\n' in row[i] && forall k :: 0 <= k < i ==> '\n' !in row[k]
  {
    if '\n' in row[0] {
      i := 0;
    } else {
      var k :| 0 <= k < |row| && '\n' in row[k];
      assert row[1..][k - 1] == row[k];
      i := FirstBadField(row[1..]);
      assert forall k :: 1 <= k < i + 1 ==> row[k] == row[1..][k - 1];
      i := i + 1;
    }
  }

  /** The row of the first line of a written row, and what follows it. */
  lemma FirstLine(row: Fields) returns (cut: Fields, tail: string)
    requires row != [] && (row[0] != "" ==> row[0][0] != COMMENT)
    ensures cut != [] && |cut| <= |row| && (|cut| < |row| || row == cut || '\n' in row[|row| - 1])
    ensures WriteFields(row) + "\n" == WriteFields(cut) + "\n" + tail
    ensures '\n' !in WriteFields(cut) && (WriteFields(cut) != "" ==> WriteFields(cut)[0] != COMMENT)
  {
    if k :| 0 <= k < |row| && '\n' in row[k] {
      var i := FirstBadField(row);
      var a, b := FirstLineEnd(row[i]);
      tail := CutWritten(row, i, a, b);
      cut := row[..i] + [a];
      tail := tail + "\n";
      assert i == 0 && a != "" ==> row[0][0] == a[0];
    } else {
      cut, tail := row, "";
    }
    WriteKeepsLines(cut);
  }

  lemma BadLineIsRefused(line: string, rest: string, num: nat)
    requires '\n' !in line && (line != "" ==> line[0] != COMMENT) && ScanFields(line, [], "", num).None?
    ensures Read(line + "\n" + rest, num).None?
  {
    var text := line + "\n" + rest;
    LineEndOf(line, rest);
    assert text[..|line|] == line;
  }

  /** A row whose last field is on one line and that cannot be stored is refused when it is read. */
  lemma UnstorableIsRefused(row: Fields, rest: string, num: nat)
    requires num >= 1 && |row| == num && (row[0] != "" ==> row[0][0] != COMMENT)
    requires '\n' !in row[num - 1] && !Storable(row, num)
    ensures Read(WriteFields(row) + "\n" + rest, num).None?
  {
    hide WriteFields, ScanFields, Storable, Read;
    var cut, tail := FirstLine(row);
    if |cut| == num { WholeLineIsShort(row, num); } else { ScanShort(cut, [], "", num); }
    BadLineIsRefused(WriteFields(cut), tail + rest, num);
    assert WriteFields(row) + "\n" + rest == WriteFields(cut) + "\n" + (tail + rest);
  }

  lemma WholeLineIsShort(row: Fields, num: nat)
    requires num >= 1 && |row| == num && (row[0] != "" ==> row[0][0] != COMMENT)
    requires '\n' !in WriteFields(row) && !Storable(row, num)
    ensures ScanFields(WriteFields(row), [], "", num).None?
  {
    MiddleBackslash(row, num);
    hide WriteFields, ScanFields;
    assert "" + row[0] == row[0];
    ScanShort(row, [], "", num);
  }

  lemma MiddleBackslash(row: Fields, num: nat)
    requires num >= 1 && |row| == num && (row[0] != "" ==> row[0][0] != COMMENT)
    requires '\n' !in WriteFields(row) && !Storable(row, num)
    ensures exists i :: 0 <= i < num - 1 && EndsInBackslash(row[i])
  {
    forall i | 0 <= i < num ensures '\n' !in row[i] {
      if '\n' in row[i] { FieldInLine(row, i); }
    }
  }

  lemma {:induction false} FieldInLine(row: Fields, i: nat)
    requires i < |row| && '\n' in row[i]
    ensures '\n' in WriteFields(row)
    decreases |row|
  {
    if i == 0 {
      var a, b := FirstLineEnd(row[0]);
      EscapeAppend(a + "\n", b);
      EscapeAppend(a, "\n");
      assert Escape("\n") == "\n";
    } else {
      FieldInLine(row[1..], i - 1);
    }
  }

  /** A row whose last field goes on behind a line end like a comment loads again, without that part. */
  lemma CommentSwallowsTheTail(row: Fields, a: string, b: string, num: nat)
    requires num >= 1 && |row| == num && row[num - 1] == a + "\n#" + b && '\n' !in b
    requires Storable(row[..num - 1] + [a], num)
    ensures Read(Write([row]), num) == Some([row[..num - 1] + [a]])
  {
    var cut := row[..num - 1] + [a];
    assert a + "\n#" + b == a + "\n" + ("#" + b);
    var tail := CutWritten(row, num - 1, a, "#" + b);
    EscapeKeepsLines("#" + b);
    assert tail[0] == '#' && '\n' !in tail;
    LineEndOf(tail, "");
    assert tail + "\n" + "" == tail + "\n" && (tail + "\n")[|tail| + 1..] == "";
    assert Read("", num) == Some([]);
    assert Read(tail + "\n", num) == Some([]);
    RowComesBack(cut, tail + "\n", num);
    assert [row][1..] == [];
    assert Write([row]) == WriteFields(row) + "\n" + "";
    assert Write([row]) == WriteFields(cut) + "\n" + (tail + "\n");
    assert [cut] + [] == [cut];
  }

  /** In a file of storable rows with such a row among them, reading fails. */
  lemma {:induction false} OneUnstorableIsRefused(rows: seq<Fields>, k: nat, num: nat)
    requires num >= 1 && AllNonempty(rows) && k < |rows|
    requires forall i :: 0 <= i < k ==> Storable(rows[i], num)
    requires |rows[k]| == num && (rows[k][0] != "" ==> rows[k][0][0] != COMMENT)
    requires '\n' !in rows[k][num - 1] && !Storable(rows[k], num)
    ensures Read(Write(rows), num).None?
    decreases |rows|
  {
    if k == 0 {
      UnstorableIsRefused(rows[0], Write(rows[1..]), num);
    } else {
      assert rows[1..][k - 1] == rows[k];
      OneUnstorableIsRefused(rows[1..], k - 1, num);
      RowComesBack(rows[0], Write(rows[1..]), num);
    }
  }

  /** Rows whose last fields are on one line, and that do not look like comments, load unchanged or not at all. */
  lemma {:induction false} UnchangedOrRefused(rows: seq<Fields>, num: nat)
    requires num >= 1 && AllNonempty(rows)
    requires forall i :: 0 <= i < |rows| ==>
               |rows[i]| == num && '\n' !in rows[i][num - 1] && (rows[i][0] != "" ==> rows[i][0][0] != COMMENT)
    ensures Read(Write(rows), num) == if AllStorable(rows, num) then Some(rows) else None
  {
    if AllStorable(rows, num) {
      StorableComesBack(rows, num);
    } else {
      var k := FirstUnstorable(rows, num);
      OneUnstorableIsRefused(rows, k, num);
    }
  }

  lemma {:induction false} FirstUnstorable(rows: seq<Fields>, num: nat) returns (k: nat)
    requires !AllStorable(rows, num)
    ensures k < |rows| && !Storable(rows[k], num) && forall i :: 0 <= i < k ==> Storable(rows[i], num)
  {
    hide Storable;
    if !Storable(rows[0], num) {
      k := 0;
    } else {
      var i :| 0 <= i < |rows| && !Storable(rows[i], num);
      assert rows[1..][i - 1] == rows[i];
      k := FirstUnstorable(rows[1..], num);
      assert forall i :: 1 <= i < k + 1 ==> rows[i] == rows[1..][i - 1];
      k := k + 1;
    }
  }
}
