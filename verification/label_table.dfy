/** `readCsvFile` (MainActivity.kt, lines 185-191): the label table.

    The resource has already been split into lines (`readLines`).  The header
    line is dropped and every other line contributes field `[1]` of
    `line.split(",")`, in order; line k of the resource becomes the label of
    class k - 1.
 */
module LabelTable {
  import opened Faults
  import opened Kotlin

  const Comma: char := ','

  /** Kotlin `split(",")` with no limit: the text between commas, keeping empty
      fields, including a leading or trailing one. */
  function Fields(s: string): (fs: seq<string>)
    ensures |fs| >= 1
  {
    if s == [] then
      [""]
    else
      var rest := Fields(s[1..]);
      if s[0] == Comma then
        [""] + rest
      else
        [[s[0]] + rest[0]] + rest[1..]
  }

  /** A line splits into at least two fields exactly when it holds a comma, and
      no field holds one. */
  lemma {:induction false} FieldsShape(s: string)
    ensures |Fields(s)| >= 2 <==> Comma in s
    ensures forall i :: 0 <= i < |Fields(s)| ==> Comma !in Fields(s)[i]
  {
    if s != [] {
      var rest := Fields(s[1..]);
      FieldsShape(s[1..]);
      assert s == [s[0]] + s[1..];
      if s[0] != Comma {
        var fs := Fields(s);
        assert fs == [[s[0]] + rest[0]] + rest[1..];
        assert Comma !in [s[0]] + rest[0];
        forall i | 1 <= i < |fs| ensures Comma !in fs[i] {
          assert fs[i] == rest[i];
        }
      }
    }
  }

  /** The fields put back together with commas between them. */
  function Join(fs: seq<string>): string
    requires |fs| >= 1
  {
    if |fs| == 1 then fs[0] else fs[0] + [Comma] + Join(fs[1..])
  }

  /** Splitting loses nothing: the fields joined again give back the line. */
  lemma {:induction false} JoinFields(s: string)
    ensures Join(Fields(s)) == s
  {
    if s != [] {
      var rest := Fields(s[1..]);
      var fs := Fields(s);
      JoinFields(s[1..]);
      assert s == [s[0]] + s[1..];
      if s[0] == Comma {
        assert fs == [""] + rest;
        assert fs[1..] == rest;
        assert Join(fs) == "" + [Comma] + Join(rest);
      } else if |rest| == 1 {
        assert fs == [[s[0]] + rest[0]];
        assert Join(rest) == rest[0];
      } else {
        assert fs == [[s[0]] + rest[0]] + rest[1..];
        assert fs[0] == [s[0]] + rest[0] && fs[1..] == rest[1..];
        assert Join(fs) == [s[0]] + rest[0] + [Comma] + Join(rest[1..]);
        assert Join(rest) == rest[0] + [Comma] + Join(rest[1..]);
      }
    }
  }

  /** Text without a comma glues onto the first field of whatever follows it. */
  lemma {:induction false} FieldsOfPrefix(a: string, t: string)
    requires Comma !in a
    ensures Fields(a + t) == [a + Fields(t)[0]] + Fields(t)[1..]
  {
    var ft := Fields(t);
    if a == [] {
      assert a + t == t;
      assert a + ft[0] == ft[0];
      assert ft == [ft[0]] + ft[1..];
    } else {
      FieldsOfPrefix(a[1..], t);
      assert (a + t)[1..] == a[1..] + t;
      var rest := Fields(a[1..] + t);
      assert rest == [a[1..] + ft[0]] + ft[1..];
      assert (a + t)[0] == a[0];
      assert Fields(a + t) == [[a[0]] + rest[0]] + rest[1..];
      assert rest[1..] == ft[1..];
      assert [a[0]] + (a[1..] + ft[0]) == a + ft[0];
    }
  }

  /** Splitting inverts joining, for fields that hold no comma. */
  lemma {:induction false} FieldsJoin(fs: seq<string>)
    requires |fs| >= 1
    requires forall i :: 0 <= i < |fs| ==> Comma !in fs[i]
    ensures Fields(Join(fs)) == fs
  {
    if |fs| == 1 {
      FieldsOfPrefix(fs[0], "");
      assert fs[0] + "" == fs[0];
    } else {
      var tail := Join(fs[1..]);
      FieldsJoin(fs[1..]);
      FieldsOfPrefix(fs[0], [Comma] + tail);
      assert fs[0] + [Comma] + tail == fs[0] + ([Comma] + tail);
      assert Fields([Comma] + tail) == [""] + Fields(tail) by {
        assert ([Comma] + tail)[1..] == tail;
      }
      assert Join(fs) == fs[0] + ([Comma] + tail);
      assert fs[0] + "" == fs[0];
      assert Fields([Comma] + tail)[0] == "";
      assert Fields([Comma] + tail)[1..] == fs[1..];
      assert fs == [fs[0]] + fs[1..];
    }
  }

  /** `line.split(",")[1]`, or nothing when the line holds no comma and the
      index would be out of bounds. */
  function SecondField(line: string): (r: Option<string>)
    ensures r.Some? <==> Comma in line
    ensures r.Some? ==> Comma !in r.value
  {
    FieldsShape(line);
    var fs := Fields(line);
    if |fs| >= 2 then Some(fs[1]) else None
  }

  /** The second field is the text between the first comma and the next comma
      or the end of the line. */
  lemma SecondFieldOfRow(first: string, second: string, rest: string)
    requires Comma !in first && Comma !in second
    requires rest == [] || rest[0] == Comma
    ensures SecondField(first + [Comma] + second + rest) == Some(second)
  {
    var tail := second + rest;
    FieldsOfPrefix(second, rest);
    assert Fields(rest)[0] == "" by {
      if rest != [] {
        assert rest[0] == Comma;
      }
    }
    assert second + "" == second;
    FieldsOfPrefix(first, [Comma] + tail);
    assert Fields([Comma] + tail) == [""] + Fields(tail) by {
      assert ([Comma] + tail)[1..] == tail;
    }
    assert first + [Comma] + second + rest == first + ([Comma] + tail);
  }

  /** `lines.drop(1).map { it.split(",")[1] }` from line `start` on; the first
      line without a comma stops it. */
  function LabelsFrom(lines: seq<string>, start: nat): (r: Result<seq<string>>)
    requires start >= 1
    ensures r.Ok? <==> forall i :: start <= i < |lines| ==> Comma in lines[i]
    ensures r.Ok? ==> |r.value| == if start <= |lines| then |lines| - start else 0
    ensures r.Ok? ==> forall i :: 0 <= i < |r.value| ==> SecondField(lines[start + i]) == Some(r.value[i])
    ensures r.Err? ==>
      && r.error.MalformedRow?
      && start <= r.error.line < |lines|
      && Comma !in lines[r.error.line]
      && forall i :: start <= i < r.error.line ==> Comma in lines[i]
    decreases |lines| - start
  {
    if start >= |lines| then
      Ok([])
    else
      match SecondField(lines[start])
      case None => Err(MalformedRow(start))
      case Some(name) =>
        var rest :- LabelsFrom(lines, start + 1);
        Ok([name] + rest)
  }

  /** The whole of `readCsvFile`: header dropped, one label per remaining line,
      in input order. */
  function ReadLabels(lines: seq<string>): (r: Result<seq<string>>)
    ensures r.Ok? <==> forall i :: 1 <= i < |lines| ==> Comma in lines[i]
    ensures r.Ok? ==> |r.value| == if lines == [] then 0 else |lines| - 1
    ensures r.Ok? ==> forall i :: 0 <= i < |r.value| ==> SecondField(lines[i + 1]) == Some(r.value[i])
    ensures r.Err? ==>
      && r.error.MalformedRow?
      && 1 <= r.error.line < |lines|
      && Comma !in lines[r.error.line]
      && forall i :: 1 <= i < r.error.line ==> Comma in lines[i]
  {
    LabelsFrom(lines, 1)
  }

  /** "id,name", "1,Apple", "2,Banana" gives ["Apple", "Banana"]. */
  lemma ReadLabelsExample()
    ensures ReadLabels(["id,name", "1,Apple", "2,Banana"]) == Ok(["Apple", "Banana"])
  {
    RowExample("1", "Apple");
    RowExample("2", "Banana");
    assert "1" + [Comma] + "Apple" == "1,Apple";
    assert "2" + [Comma] + "Banana" == "2,Banana";
    TwoRows("id,name", "1,Apple", "2,Banana");
  }

  /** A header and two well-formed rows give the rows' second fields. */
  lemma TwoRows(header: string, first: string, second: string)
    requires SecondField(first).Some? && SecondField(second).Some?
    ensures ReadLabels([header, first, second]) == Ok([SecondField(first).value, SecondField(second).value])
  {
    var lines := [header, first, second];
    assert Comma in lines[1] && Comma in lines[2];
    var r := ReadLabels(lines);
    assert r.Ok? && |r.value| == 2;
    assert SecondField(lines[1]) == Some(r.value[0]);
    assert SecondField(lines[2]) == Some(r.value[1]);
    assert r.value == [SecondField(first).value, SecondField(second).value];
  }

  /** A row "<id>,<name>" of the example table. */
  lemma RowExample(id: string, name: string)
    requires Comma !in id && Comma !in name
    ensures SecondField(id + [Comma] + name) == Some(name)
  {
    SecondFieldOfRow(id, name, "");
    assert id + [Comma] + name + "" == id + [Comma] + name;
  }
}
