/** The administrator's course form: the prerequisites field, typed as one comma-separated
    string and held as a list of course names, and the three updates of the locally held
    course list after the server confirms an update, a creation or a deletion. */
module Admin {
  import opened Wrappers
  import opened Models
  import opened Seqs

  /** A course as the administrator's list holds it: its identifier, its fields and the
      prerequisites it may carry. */
  datatype CourseRow = CourseRow(id: CourseId, course: Course, prerequisites: Option<seq<string>>)

  // ---------------------------------------------------------------------------------------
  // Trimming

  /** The whitespace `trim` removes, restricted to ASCII: space, tab, line feed, vertical
      tab, form feed and carriage return. */
  predicate IsSpace(c: char)
    ensures IsSpace(c) ==> c <= ' ' && c != ','
  {
    c == ' ' || c == '\t' || c == '\n' || c == 11 as char || c == 12 as char || c == '\r'
  }

  /** A string with no whitespace at either end. */
  predicate Trimmed(s: string) {
    s == [] || (!IsSpace(s[0]) && !IsSpace(s[|s| - 1]))
  }

  /** `s` without its leading whitespace. */
  function TrimStart(s: string): (r: string)
    ensures |r| <= |s| && r == s[|s| - |r|..]
    ensures forall k :: 0 <= k < |s| - |r| ==> IsSpace(s[k])
    ensures r != [] ==> !IsSpace(r[0])
  {
    if s != [] && IsSpace(s[0]) then TrimStart(s[1..]) else s
  }

  /** `s` without its trailing whitespace. */
  function TrimEnd(s: string): (r: string)
    ensures |r| <= |s| && r == s[..|r|]
    ensures forall k :: |r| <= k < |s| ==> IsSpace(s[k])
    ensures r != [] ==> !IsSpace(r[|r| - 1])
  {
    if s != [] && IsSpace(s[|s| - 1]) then TrimEnd(s[..|s| - 1]) else s
  }

  /** `s` without whitespace at either end. */
  function Trim(s: string): (r: string)
    ensures Trimmed(r)
    ensures |r| <= |s|
    ensures exists i, j ::
              && 0 <= i <= j <= |s| && r == s[i..j]
              && forall k :: 0 <= k < i || j <= k < |s| ==> IsSpace(s[k])
  {
    TrimSlice(s);
    TrimEnd(TrimStart(s))
  }

  /** Where the trimmed string sits in `s`, and that what lies after it is whitespace. */
  lemma TrimSlice(s: string)
    ensures var t := TrimStart(s); var r := TrimEnd(t); var i := |s| - |t|;
      && r == s[i..i + |r|]
      && forall k :: i + |r| <= k < |s| ==> IsSpace(s[k])
  {
    var t := TrimStart(s);
    SpaceAfterPrefix(s, |s| - |t|, TrimEnd(t));
  }

  /** A prefix `r` of the suffix of `s` from `i`, followed there only by whitespace, is a
      slice of `s` followed only by whitespace. */
  lemma SpaceAfterPrefix(s: string, i: nat, r: string)
    requires i <= |s| && |r| <= |s| - i && r == s[i..][..|r|]
    requires forall k :: |r| <= k < |s| - i ==> IsSpace(s[i..][k])
    ensures r == s[i..i + |r|]
    ensures forall k :: i + |r| <= k < |s| ==> IsSpace(s[k])
  {
    forall k | i + |r| <= k < |s| ensures IsSpace(s[k]) {
      assert s[k] == s[i..][k - i];
    }
  }

  /** Trimming leaves a trimmed string alone. */
  lemma TrimTrimmed(s: string)
    requires Trimmed(s)
    ensures Trim(s) == s
  {
    assert TrimStart(s) == s;
  }

  /** Trimming removes the one space that formatting puts before an entry. */
  lemma TrimAfterSpace(s: string)
    requires Trimmed(s)
    ensures Trim(" " + s) == s
  {
    assert (" " + s)[1..] == s;
    assert TrimStart(" " + s) == TrimStart(s);
    TrimTrimmed(s);
  }

  // ---------------------------------------------------------------------------------------
  // Splitting and joining

  /** The number of commas in `s`. */
  function Commas(s: string): nat {
    if s == [] then 0 else (if s[0] == ',' then 1 else 0) + Commas(s[1..])
  }

  /** The pieces of `s` between its commas, as `split(",")` yields them: one more than the
      commas, none holding a comma. */
  function Split(s: string): (r: seq<string>)
    ensures |r| == Commas(s) + 1
    ensures forall i :: 0 <= i < |r| ==> ',' !in r[i]
  {
    if s == [] then [[]]
    else
      var rest := Split(s[1..]);
      if s[0] == ',' then [[]] + rest else [[s[0]] + rest[0]] + rest[1..]
  }

  /** The entries of `xs` with `sep` between each two, as `join(sep)` yields them. */
  function Join(xs: seq<string>, sep: string): (r: string)
    ensures |xs| == 0 ==> r == []
    ensures |xs| > 0 ==> |xs[0]| <= |r| && r[..|xs[0]|] == xs[0]
  {
    if |xs| == 0 then []
    else if |xs| == 1 then xs[0]
    else xs[0] + sep + Join(xs[1..], sep)
  }

  /** The commas of two strings put together. */
  lemma {:induction false} CommasAppend(a: string, b: string)
    ensures Commas(a + b) == Commas(a) + Commas(b)
  {
    if a == [] {
      assert a + b == b;
    } else {
      assert (a + b)[0] == a[0] && (a + b)[1..] == a[1..] + b;
      CommasAppend(a[1..], b);
    }
  }

  /** Joining comma-free entries with a separator holding one comma puts one comma between
      each two entries and no other. */
  lemma {:induction false} JoinCommas(xs: seq<string>, sep: string)
    requires Commas(sep) == 1
    ensures xs != [] && (forall i :: 0 <= i < |xs| ==> ',' !in xs[i]) ==> Commas(Join(xs, sep)) + 1 == |xs|
  {
    if xs != [] && (forall i :: 0 <= i < |xs| ==> ',' !in xs[i]) {
      NoCommaCount(xs[0]);
    }
    if |xs| > 1 {
      JoinCommas(xs[1..], sep);
      CommasAppend(xs[0] + sep, Join(xs[1..], sep));
      CommasAppend(xs[0], sep);
    }
  }

  /** A string without a comma counts none. */
  lemma {:induction false} NoCommaCount(s: string)
    requires ',' !in s
    ensures Commas(s) == 0
  {
    if s != [] {
      assert ',' !in s[1..];
      NoCommaCount(s[1..]);
    }
  }

  /** Joining the pieces with commas gives back the string: they partition it. */
  lemma {:induction false} JoinSplit(s: string)
    ensures Join(Split(s), ",") == s
  {
    if s != [] {
      var rest := Split(s[1..]);
      JoinSplit(s[1..]);
      if s[0] == ',' {
        assert ([[]] + rest)[1..] == rest;
      } else {
        if |rest| > 1 {
          assert ([[s[0]] + rest[0]] + rest[1..])[1..] == rest[1..];
        }
      }
    }
  }

  /** A string with no comma is one piece. */
  lemma {:induction false} SplitNoComma(s: string)
    requires ',' !in s
    ensures Split(s) == [s]
  {
    if s != [] {
      assert s[0] != ',' && ',' !in s[1..];
      SplitNoComma(s[1..]);
      assert [s[0]] + s[1..] == s;
    }
  }

  /** A comma-free string before a comma is the first piece. */
  lemma {:induction false} SplitAfter(a: string, t: string)
    requires ',' !in a
    ensures Split(a + "," + t) == [a] + Split(t)
  {
    if a == [] {
      assert a + "," + t == "," + t;
    } else {
      assert (a + "," + t)[1..] == a[1..] + "," + t;
      SplitAfter(a[1..], t);
      assert [a[0]] + a[1..] == a;
    }
  }

  // ---------------------------------------------------------------------------------------
  // The prerequisites field

  /** The list the form submits: nothing for an empty field, otherwise each comma-separated
      piece, trimmed. */
  function ParsePrerequisites(s: string): (r: seq<string>)
    ensures s == [] ==> r == []
    ensures s != [] ==> |r| == Commas(s) + 1
    ensures forall i :: 0 <= i < |r| ==> Trimmed(r[i]) && ',' !in r[i]
  {
    if s == [] then []
    else
      var pieces := Split(s);
      seq(|pieces|, i requires 0 <= i < |pieces| => Trim(pieces[i]))
  }

  /** The field text for a course being edited: its prerequisites joined by ", ", or nothing
      when it has none. */
  function FormatPrerequisites(p: Option<seq<string>>): (r: string)
    ensures p.None? ==> r == []
    ensures p.Some? && p.value != [] && (forall i :: 0 <= i < |p.value| ==> ',' !in p.value[i]) ==>
      Commas(r) + 1 == |p.value|
  {
    match p
    case None => []
    case Some(xs) => JoinCommas(xs, ", "); Join(xs, ", ")
  }

  /** Each entry parsed from a non-empty field is the matching piece of the field, trimmed,
      and the pieces make up the field. */
  lemma ParsePieces(s: string)
    requires s != []
    ensures |ParsePrerequisites(s)| == |Split(s)| == Commas(s) + 1
    ensures forall i :: 0 <= i < |Split(s)| ==> ParsePrerequisites(s)[i] == Trim(Split(s)[i])
    ensures Join(Split(s), ",") == s
  {
    JoinSplit(s);
  }

  /** A course with no prerequisites shows an empty field, and an empty field submits no
      prerequisites. */
  lemma EmptyField()
    ensures FormatPrerequisites(None) == []
    ensures FormatPrerequisites(Some([])) == []
    ensures ParsePrerequisites([]) == []
  {
  }

  /** The pieces of a formatted list: the first entry, then each later entry after a space. */
  lemma {:induction false} SplitFormatted(xs: seq<string>)
    requires |xs| > 0
    requires forall i :: 0 <= i < |xs| ==> ',' !in xs[i]
    ensures |Split(Join(xs, ", "))| == |xs|
    ensures Split(Join(xs, ", "))[0] == xs[0]
    ensures forall i :: 1 <= i < |xs| ==> Split(Join(xs, ", "))[i] == " " + xs[i]
  {
    if |xs| == 1 {
      SplitNoComma(xs[0]);
    } else {
      var tail := Join(xs[1..], ", ");
      assert Join(xs, ", ") == xs[0] + "," + (" " + tail);
      SplitAfter(xs[0], " " + tail);
      SplitFormatted(xs[1..]);
      assert (" " + tail)[1..] == tail;
      var p := Split(tail);
      assert Split(" " + tail) == [" " + p[0]] + p[1..];
    }
  }

  /** Editing a course and submitting the form unchanged gives back its prerequisites, as
      long as each is a trimmed name without a comma and the list is not one empty name,
      which shows as an empty field. */
  lemma ParseFormatRoundTrip(xs: seq<string>)
    requires xs != [[]]
    requires forall i :: 0 <= i < |xs| ==> ',' !in xs[i] && Trimmed(xs[i])
    ensures ParsePrerequisites(FormatPrerequisites(Some(xs))) == xs
  {
    if xs != [] {
      var s := Join(xs, ", ");
      SplitFormatted(xs);
      assert s != [] by {
        if |xs| > 1 {
          assert s == xs[0] + ", " + Join(xs[1..], ", ");
        }
      }
      var r := ParsePrerequisites(s);
      forall i | 0 <= i < |xs| ensures r[i] == xs[i] {
        if i == 0 {
          TrimTrimmed(xs[0]);
        } else {
          TrimAfterSpace(xs[i]);
        }
      }
    }
  }

  // ---------------------------------------------------------------------------------------
  // The local course list

  /** The list after the server confirms an update: every row with the edited id becomes
      the server's copy, every other row stays where it was. */
  function ReplaceById(rows: seq<CourseRow>, id: CourseId, updated: CourseRow): (r: seq<CourseRow>)
    ensures |r| == |rows|
    ensures forall i :: 0 <= i < |r| ==> r[i] == if rows[i].id == id then updated else rows[i]
  {
    if rows == [] then []
    else [if rows[0].id == id then updated else rows[0]] + ReplaceById(rows[1..], id, updated)
  }

  /** The list after the server confirms a creation: the new row at the end. */
  function AddRow(rows: seq<CourseRow>, created: CourseRow): (r: seq<CourseRow>)
    ensures |r| == |rows| + 1 && r[..|rows|] == rows && r[|rows|] == created
  {
    rows + [created]
  }

  /** The list after the server confirms a deletion: the rows with another id, in order. */
  function RemoveById(rows: seq<CourseRow>, id: CourseId): (r: seq<CourseRow>)
    ensures |r| <= |rows|
    ensures forall i :: 0 <= i < |r| ==> r[i].id != id && r[i] in rows
    ensures forall row :: row in rows && row.id != id ==> row in r
  {
    if rows == [] then []
    else if rows[0].id == id then RemoveById(rows[1..], id)
    else [rows[0]] + RemoveById(rows[1..], id)
  }

  /** Deleting from a list with one more row in front. */
  lemma RemoveByIdCons(row: CourseRow, rows: seq<CourseRow>, id: CourseId)
    ensures RemoveById([row] + rows, id) == (if row.id == id then [] else [row]) + RemoveById(rows, id)
  {
    assert ([row] + rows)[0] == row && ([row] + rows)[1..] == rows;
  }

  /** Deleting distributes over concatenation: what survives keeps its order. */
  lemma {:induction false} RemoveByIdAppend(a: seq<CourseRow>, b: seq<CourseRow>, id: CourseId)
    ensures RemoveById(a + b, id) == RemoveById(a, id) + RemoveById(b, id)
  {
    if a == [] {
      assert a + b == b;
    } else {
      var h, t := a[0], a[1..];
      assert a == [h] + t && a + b == [h] + (t + b);
      RemoveByIdAppend(t, b, id);
      RemoveByIdCons(h, t + b, id);
      RemoveByIdCons(h, t, id);
      var pre, x, y := (if h.id == id then [] else [h]), RemoveById(t, id), RemoveById(b, id);
      ConcatAssoc(pre, x, y);
    }
  }


  /** Deleting an id no row has changes nothing. */
  lemma {:induction false} RemoveByIdAbsent(rows: seq<CourseRow>, id: CourseId)
    requires forall i :: 0 <= i < |rows| ==> rows[i].id != id
    ensures RemoveById(rows, id) == rows
  {
    if rows != [] {
      RemoveByIdAbsent(rows[1..], id);
    }
  }

  /** Deleting twice is deleting once. */
  lemma RemoveByIdIdempotent(rows: seq<CourseRow>, id: CourseId)
    ensures RemoveById(RemoveById(rows, id), id) == RemoveById(rows, id)
  {
    RemoveByIdAbsent(RemoveById(rows, id), id);
  }

  /** Creating a course with a fresh id and then deleting it restores the list. */
  lemma AddThenRemove(rows: seq<CourseRow>, created: CourseRow)
    requires forall i :: 0 <= i < |rows| ==> rows[i].id != created.id
    ensures RemoveById(AddRow(rows, created), created.id) == rows
  {
    RemoveByIdAppend(rows, [created], created.id);
    RemoveByIdAbsent(rows, created.id);
    assert RemoveById([created], created.id) == [];
  }

  /** Updating a course and then deleting it is deleting it. */
  lemma {:induction false} ReplaceThenRemove(rows: seq<CourseRow>, id: CourseId, updated: CourseRow)
    requires updated.id == id
    ensures RemoveById(ReplaceById(rows, id, updated), id) == RemoveById(rows, id)
  {
    if rows != [] {
      ReplaceThenRemove(rows[1..], id, updated);
    }
  }

  /** Updating an id no row has changes nothing. */
  lemma ReplaceByIdAbsent(rows: seq<CourseRow>, id: CourseId, updated: CourseRow)
    requires forall i :: 0 <= i < |rows| ==> rows[i].id != id
    ensures ReplaceById(rows, id, updated) == rows
  {
  }
}
