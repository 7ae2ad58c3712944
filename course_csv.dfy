/**
 * The per-line split of `loadCoursesFromFile` (Artifacts/CourseBST.cpp):
 * repeated `std::getline(ss, token, ',')` on one line, the first field
 * becoming the course number, the second the title, the rest the
 * prerequisites; a line with fewer than two fields is skipped.
 */
module CourseCsv {
  import opened Wrappers
  import opened CourseBst

  /** Where the field starting at the front of `s` ends: the first comma, or the end. */
  function FieldEnd(s: string): (i: nat)
    ensures i <= |s|
  {
    if s == [] || s[0] == ',' then 0 else 1 + FieldEnd(s[1..])
  }

  /** A field that stops short of the end of the line stops at a comma. */
  lemma {:induction false} FieldEndAtComma(s: string)
    ensures FieldEnd(s) < |s| ==> s[FieldEnd(s)] == ','
  {
    if s != [] && s[0] != ',' {
      FieldEndAtComma(s[1..]);
    }
  }

  /** No character inside a field is a comma. */
  lemma {:induction false} FieldEndPastNoComma(s: string, j: nat)
    requires j < FieldEnd(s)
    ensures s[j] != ','
  {
    if j > 0 {
      FieldEndPastNoComma(s[1..], j - 1);
    }
  }

  /** The tokens that repeated `std::getline(ss, token, ',')` extracts from `s`.
      It fails only when nothing is left to read, so an empty line has no
      field, an empty field between two commas is kept, and a comma at the
      very end is not followed by an empty field. */
  function Fields(s: string): seq<string>
    decreases |s|
  {
    if |s| == 0 then []
    else if FieldEnd(s) == |s| then [s]
    else [s[..FieldEnd(s)]] + Fields(s[FieldEnd(s) + 1..])
  }

  /** The course a line stands for, or `None` when it is skipped. */
  function CourseOfFields(f: seq<string>): Option<Course>
  {
    if |f| < 2 then None else Some(Course(f[0], f[1], f[2..]))
  }

  /** A line in the file's format: the fields joined by commas. */
  function JoinFields(f: seq<string>): string
  {
    if f == [] then ""
    else if |f| == 1 then f[0]
    else f[0] + "," + JoinFields(f[1..])
  }

  /** The line a course is written as. */
  function FormatCourse(c: Course): string
  {
    JoinFields([c.courseNumber, c.courseTitle] + c.prerequisites)
  }

  /** A field ends at the first comma, wherever that is found. */
  lemma {:induction false} FieldEndAt(s: string, i: nat)
    requires i <= |s|
    requires forall j :: 0 <= j < i ==> s[j] != ','
    requires i < |s| ==> s[i] == ','
    ensures FieldEnd(s) == i
  {
    if i > 0 {
      FieldEndAt(s[1..], i - 1);
    }
  }

  /** Splitting a comma-joined line gives back its fields, provided no field
      holds a comma and the last one is not empty (`std::getline` drops an
      empty field at the very end of the line). */
  lemma {:induction false} FieldsOfJoin(f: seq<string>)
    requires forall i :: 0 <= i < |f| ==> ',' !in f[i]
    requires f != [] ==> f[|f| - 1] != ""
    ensures Fields(JoinFields(f)) == f
  {
    if |f| == 1 {
      FieldEndAt(f[0], |f[0]|);
      assert f[0][..|f[0]|] == f[0];
    } else if |f| > 1 {
      var s := JoinFields(f);
      var rest := JoinFields(f[1..]);
      assert s == f[0] + "," + rest;
      FieldEndAt(s, |f[0]|);
      assert s[..|f[0]|] == f[0];
      assert s[|f[0]| + 1..] == rest;
      FieldsOfJoin(f[1..]);
    }
  }

  /** A line with a comma splits into the field before it and the fields after it. */
  lemma FieldsAtComma(s: string, i: nat)
    requires i == FieldEnd(s) && i < |s|
    ensures Fields(s) == [s[..i]] + Fields(s[i + 1..])
  {
    assert s != [];
  }

  /** A line is what comes before one of its commas, the comma, and what comes after. */
  lemma CommaSplit(s: string, i: nat)
    requires i < |s| && s[i] == ','
    ensures s == s[..i] + "," + s[i + 1..]
  {
    var t := s[..i] + "," + s[i + 1..];
    assert |t| == |s|;
    forall j | 0 <= j < |s|
      ensures t[j] == s[j]
    {
    }
  }

  /** Joining two or more fields puts a comma after the first. */
  lemma JoinCons(head: string, f: seq<string>)
    requires f != []
    ensures JoinFields([head] + f) == head + "," + JoinFields(f)
  {
    assert ([head] + f)[1..] == f;
  }

  /** The last character of `head,tail` is the last of `tail`, and dropping it
      drops it from `tail`. */
  lemma JoinLast(head: string, tail: string)
    requires tail != []
    ensures (head + "," + tail)[|head| + |tail|] == tail[|tail| - 1]
    ensures (head + "," + tail)[..|head| + |tail|] == head + "," + tail[..|tail| - 1]
  {
  }

  /** Joining the fields of a line gives back the line, less a final comma. */
  lemma {:induction false} JoinOfFields(s: string)
    ensures JoinFields(Fields(s)) == if s != [] && s[|s| - 1] == ',' then s[..|s| - 1] else s
    decreases |s|
  {
    if s != [] {
      var i := FieldEnd(s);
      if i == |s| {
        FieldEndPastNoComma(s, |s| - 1);
        assert s[..i] == s;
      } else {
        FieldsAtComma(s, i);
        FieldEndAtComma(s);
        CommaSplit(s, i);
        var head, tail := s[..i], s[i + 1..];
        if tail == [] {
          assert s[..|s| - 1] == head;
        } else {
          JoinOfFields(tail);
          JoinCons(head, Fields(tail));
          JoinLast(head, tail);
        }
      }
    }
  }

  /** A course whose fields hold no comma and whose line does not end in an
      empty field is read back as itself. */
  lemma CourseRoundTrip(c: Course)
    requires ',' !in c.courseNumber && ',' !in c.courseTitle
    requires forall i :: 0 <= i < |c.prerequisites| ==> ',' !in c.prerequisites[i]
    requires if c.prerequisites == [] then c.courseTitle != "" else c.prerequisites[|c.prerequisites| - 1] != ""
    ensures CourseOfFields(Fields(FormatCourse(c))) == Some(c)
  {
    var f := [c.courseNumber, c.courseTitle] + c.prerequisites;
    FieldsOfJoin(f);
    assert f[2..] == c.prerequisites;
  }

  /** One `std::getline(ss, token, ',')` on the line read from position `pos`:
      fails when nothing is left, otherwise extracts up to the next comma,
      which it consumes. */
  method GetField(line: string, pos: nat) returns (ok: bool, token: string, next: nat)
    requires pos <= |line|
    ensures ok <==> pos < |line|
    ensures ok ==> pos < next <= |line|
    ensures ok ==> ',' !in token
    ensures Fields(line[pos..]) == if ok then [token] + Fields(line[next..]) else []
  {
    if pos == |line| {
      return false, "", pos;
    }
    var i := pos;
    while i < |line| && line[i] != ','
      invariant pos <= i <= |line|
      invariant forall j :: pos <= j < i ==> line[j] != ','
    {
      i := i + 1;
    }
    ok, token := true, line[pos..i];
    next := if i < |line| then i + 1 else i;
    FieldEndAt(line[pos..], i - pos);
    assert line[pos..][..i - pos] == token;
    if i < |line| {
      assert line[pos..][i - pos + 1..] == line[next..];
    } else {
      assert line[next..] == [] && token == line[pos..];
    }
    if i == pos {
      assert token == [];
    }
  }

  /** The body of the read loop of `loadCoursesFromFile` for one line:
      the course the line stands for, or `None` when it is skipped. */
  method ParseLine(line: string) returns (course: Option<Course>)
    ensures course == CourseOfFields(Fields(line))
    ensures course.None? <==> |Fields(line)| < 2
  {
    var ok, token, pos := GetField(line, 0);
    assert line[0..] == line;
    if !ok {
      return None;
    }
    var number := token;
    assert Fields(line) == [number] + Fields(line[pos..]);
    ok, token, pos := GetField(line, pos);
    if !ok {
      return None;
    }
    var title := token;
    assert Fields(line) == [number, title] + Fields(line[pos..]);
    var prerequisites := ReadRemaining(line, pos);
    course := Some(Course(number, title, prerequisites));
    assert Fields(line)[2..] == prerequisites;
  }

  /** The prerequisite loop of `loadCoursesFromFile`: every remaining field
      of the line from `pos` on, in order. */
  method ReadRemaining(line: string, pos: nat) returns (fields: seq<string>)
    requires pos <= |line|
    ensures fields == Fields(line[pos..])
  {
    fields := [];
    var at, more := pos, true;
    ghost var unread := Fields(line[pos..]);
    while more
      invariant pos <= at <= |line|
      invariant Fields(line[pos..]) == fields + unread
      invariant unread == if more then Fields(line[at..]) else []
      decreases |line| - at, more
    {
      var ok, token, next := GetField(line, at);
      if ok {
        assert unread == [token] + Fields(line[next..]);
        assert fields + unread == (fields + [token]) + unread[1..];
        fields, unread := fields + [token], unread[1..];
        at := next;
      } else {
        more := false;
      }
    }
  }

  /** The courses a file's lines stand for, skipped lines left out. */
  function ParsedCourses(lines: seq<string>): seq<Course>
  {
    if lines == [] then []
    else
      var last := CourseOfFields(Fields(lines[|lines| - 1]));
      ParsedCourses(lines[..|lines| - 1]) + (if last.Some? then [last.value] else [])
  }

  /** The first course in `cs` numbered `k`. */
  function FirstWithKey(cs: seq<Course>, k: string): (r: Option<Course>)
  {
    if cs == [] then None
    else if cs[0].courseNumber == k then Some(cs[0])
    else FirstWithKey(cs[1..], k)
  }

  /** `cs[i]` is the earliest course in `cs` numbered `k`. */
  ghost predicate FirstAt(cs: seq<Course>, k: string, i: int)
  {
    0 <= i < |cs| && cs[i].courseNumber == k && forall j :: 0 <= j < i ==> cs[j].courseNumber != k
  }

  /** `FirstWithKey` finds the earliest course with that number, if any. */
  lemma {:induction false} FirstWithKeyIsFirst(cs: seq<Course>, k: string)
    ensures FirstWithKey(cs, k).Some? <==> exists i :: 0 <= i < |cs| && cs[i].courseNumber == k
    ensures FirstWithKey(cs, k).Some? ==> exists i :: FirstAt(cs, k, i) && cs[i] == FirstWithKey(cs, k).value
  {
    if cs != [] {
      FirstWithKeyIsFirst(cs[1..], k);
      if cs[0].courseNumber != k {
        if FirstWithKey(cs, k).Some? {
          var i :| FirstAt(cs[1..], k, i) && cs[1..][i] == FirstWithKey(cs, k).value;
          assert cs[i + 1] == cs[1..][i];
          assert forall j :: 0 <= j < i + 1 ==> cs[j].courseNumber != k by {
            forall j | 0 < j < i + 1
              ensures cs[j].courseNumber != k
            {
              assert cs[j] == cs[1..][j - 1];
            }
          }
        } else {
          forall i | 0 <= i < |cs|
            ensures cs[i].courseNumber != k
          {
            if i > 0 {
              assert cs[i] == cs[1..][i - 1];
            }
          }
        }
      }
    }
  }

  /** Appending a course changes the first match only where there was none. */
  lemma {:induction false} FirstWithKeySnoc(cs: seq<Course>, c: Course, k: string)
    ensures FirstWithKey(cs + [c], k) == FoundAfterInsert(FirstWithKey(cs, k), c, k)
  {
    if cs != [] {
      assert (cs + [c])[1..] == cs[1..] + [c];
      FirstWithKeySnoc(cs[1..], c, k);
    } else {
      assert [c][1..] == [];
    }
  }

  /** `t` is the tree `start` grows into once the courses `cs` are inserted in order. */
  ghost predicate LoadedFrom(t: Tree, start: Tree, cs: seq<Course>)
  {
    && Courses(t) == Courses(start) + multiset(cs)
    && forall k :: Find(t, k) == (if Find(start, k).Some? then Find(start, k) else FirstWithKey(cs, k))
  }

  /** Inserting one more course extends the load by that course. */
  lemma LoadStep(t: Tree, t': Tree, start: Tree, cs: seq<Course>, c: Course)
    requires LoadedFrom(t, start, cs)
    requires Courses(t') == Courses(t) + multiset{c}
    requires forall k :: Find(t', k) == FoundAfterInsert(Find(t, k), c, k)
    ensures LoadedFrom(t', start, cs + [c])
  {
    forall k
      ensures Find(t', k) == (if Find(start, k).Some? then Find(start, k) else FirstWithKey(cs + [c], k))
    {
      FirstWithKeySnoc(cs, c, k);
    }
  }

  /** `loadCoursesFromFile` once the file is open, its lines given as a
      sequence: every line of two or more fields is inserted, in file order. */
  method LoadCourses(lines: seq<string>, bst: CourseBST)
    requires bst.Valid()
    modifies bst
    ensures bst.Valid()
    ensures Courses(bst.root) == old(Courses(bst.root)) + multiset(ParsedCourses(lines))
    ensures forall k :: (Find(bst.root, k) ==
      if Find(old(bst.root), k).Some? then Find(old(bst.root), k) else FirstWithKey(ParsedCourses(lines), k))
  {
    ghost var start := bst.root;
    for i := 0 to |lines|
      invariant bst.Valid()
      invariant LoadedFrom(bst.root, start, ParsedCourses(lines[..i]))
    {
      var course := ParseLine(lines[i]);
      assert lines[..i + 1][..i] == lines[..i] && lines[..i + 1][i] == lines[i];
      assert ParsedCourses(lines[..i + 1])
          == ParsedCourses(lines[..i]) + (if course.Some? then [course.value] else []);
      if course.Some? {
        ghost var before := bst.root;
        bst.Insert(course.value);
        LoadStep(before, bst.root, start, ParsedCourses(lines[..i]), course.value);
      } else {
        assert ParsedCourses(lines[..i + 1]) == ParsedCourses(lines[..i]);
      }
    }
    assert lines[..|lines|] == lines;
  }
}
