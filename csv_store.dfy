/**
 * `CsvManager`, the store that keeps students one per line in a text file, with the
 * file modelled as the sequence of its lines.
 */
module CsvStore {
  import opened Results
  import opened JavaText
  import opened Students

  /**
   * The RuntimeException("Error during object creation or validation", cause) into which
   * `create` turns every deserialization or validation error.
   */
  datatype Failure = CreationFailed(cause: Cause)

  /** The student invariant: the age is not negative and the name is not blank. */
  ghost predicate WellFormed(s: StudentData)
  {
    s.age >= 0 && exists i :: 0 <= i < |s.name| && !IsWhitespace(s.name[i])
  }

  /** `validate`: rejects a negative age and an empty or blank name; passes anything else. */
  function Validate(s: StudentData): (o: Outcome<Cause>)
    ensures o.Pass? <==> WellFormed(s)
    ensures o.Fail? ==> o.error == InvalidStudent(s)
  {
    if s.age < 0 || |s.name| == 0 || IsBlank(s.name) then Fail(InvalidStudent(s)) else Pass
  }

  /** What `create(line)` yields: deserialize into a new student, then validate it. */
  function Decode(line: string): (r: Result<StudentData, Failure>)
    ensures r.Ok? <==> Parse(line).Ok? && WellFormed(Parse(line).value)
    ensures r.Ok? ==> Parse(line) == Ok(r.value)
    ensures Parse(line).Err? ==> r == Err(CreationFailed(Parse(line).error))
    ensures Parse(line).Ok? && !WellFormed(Parse(line).value) ==>
      r == Err(CreationFailed(InvalidStudent(Parse(line).value)))
  {
    match Parse(line)
    case Err(cause) => Err(CreationFailed(cause))
    case Ok(s) =>
      match Validate(s)
      case Fail(cause) => Err(CreationFailed(cause))
      case Pass => Ok(s)
  }

  /** Every line read with `read`, in order, stopping at the first line that fails. */
  function ReadLines<T, E>(read: string -> Result<T, E>, lines: seq<string>): (r: Result<seq<T>, E>)
    ensures r.Ok? ==> |r.value| == |lines|
  {
    if lines == [] then Ok([])
    else
      match read(lines[0])
      case Err(e) => Err(e)
      case Ok(x) =>
        match ReadLines(read, lines[1..])
        case Err(e) => Err(e)
        case Ok(rest) => Ok([x] + rest)
  }

  /** A file reads exactly when each of its lines does, and then its records are those of its lines, in order. */
  lemma {:induction false} ReadLinesAllRead<T, E>(read: string -> Result<T, E>, lines: seq<string>)
    ensures ReadLines(read, lines).Ok? <==> forall i :: 0 <= i < |lines| ==> read(lines[i]).Ok?
    ensures ReadLines(read, lines).Ok? ==>
      forall i :: 0 <= i < |lines| ==> ReadLines(read, lines).value[i] == read(lines[i]).value
  {
    if lines != [] {
      ReadLinesAllRead(read, lines[1..]);
      assert forall i :: 1 <= i < |lines| ==> lines[i] == lines[1..][i - 1];
    }
  }

  /** Fail-fast reading: the error reported is the one of the first line that fails. */
  lemma {:induction false} FailFast<T, E>(read: string -> Result<T, E>, lines: seq<string>, k: nat)
    requires k < |lines| && read(lines[k]).Err?
    requires forall i :: 0 <= i < k ==> read(lines[i]).Ok?
    ensures ReadLines(read, lines) == Err(read(lines[k]).error)
  {
    if k > 0 {
      assert forall i :: 0 <= i < k - 1 ==> lines[1..][i] == lines[i + 1];
      FailFast(read, lines[1..], k - 1);
    }
  }

  /** A file that does not read has a first line that fails. */
  lemma {:induction false} FirstFailure<T, E>(read: string -> Result<T, E>, lines: seq<string>) returns (k: nat)
    requires ReadLines(read, lines).Err?
    ensures k < |lines| && read(lines[k]).Err?
    ensures forall i :: 0 <= i < k ==> read(lines[i]).Ok?
  {
    if read(lines[0]).Err? {
      k := 0;
    } else {
      assert forall i :: 0 <= i < |lines| - 1 ==> lines[1..][i] == lines[i + 1];
      var rest := FirstFailure(read, lines[1..]);
      k := rest + 1;
    }
  }

  lemma ReadLinesConcatLeftFails<T, E>(read: string -> Result<T, E>, a: seq<string>, b: seq<string>)
    requires ReadLines(read, a).Err?
    ensures ReadLines(read, a + b) == ReadLines(read, a)
  {
    var k := FirstFailure(read, a);
    FailFast(read, a, k);
    assert forall i :: 0 <= i < |a| ==> (a + b)[i] == a[i];
    FailFast(read, a + b, k);
  }

  lemma ReadLinesConcatRightFails<T, E>(read: string -> Result<T, E>, a: seq<string>, b: seq<string>)
    requires ReadLines(read, a).Ok? && ReadLines(read, b).Err?
    ensures ReadLines(read, a + b) == ReadLines(read, b)
  {
    var k := FirstFailure(read, b);
    FailFast(read, b, k);
    ReadLinesAllRead(read, a);
    var ab := a + b;
    forall i | 0 <= i < |a| + k
      ensures read(ab[i]).Ok?
    {
      if i < |a| {
        assert ab[i] == a[i];
      } else {
        assert ab[i] == b[i - |a|];
      }
    }
    assert ab[|a| + k] == b[k];
    FailFast(read, ab, |a| + k);
  }

  lemma {:induction false} ReadLinesConcatBothRead<T, E>(read: string -> Result<T, E>, a: seq<string>, b: seq<string>)
    requires ReadLines(read, a).Ok? && ReadLines(read, b).Ok?
    ensures ReadLines(read, a + b) == Ok(ReadLines(read, a).value + ReadLines(read, b).value)
  {
    var v := ReadLines(read, b).value;
    if a == [] {
      assert a + b == b;
      assert [] + v == v;
    } else {
      var ab := a + b;
      var x, u := read(a[0]).value, ReadLines(read, a[1..]).value;
      assert ReadLines(read, a).value == [x] + u;
      assert ReadLines(read, a[1..] + b) == Ok(u + v) by {
        ReadLinesConcatBothRead(read, a[1..], b);
      }
      assert ReadLines(read, ab) == Ok([x] + (u + v)) by {
        assert ab[0] == a[0] && ab[1..] == a[1..] + b;
      }
      assert [x] + (u + v) == [x] + u + v;
    }
  }

  /** Reading two files one after the other is reading their concatenation. */
  lemma ReadLinesConcat<T, E>(read: string -> Result<T, E>, a: seq<string>, b: seq<string>)
    ensures ReadLines(read, a + b) ==
      match ReadLines(read, a)
      case Err(e) => Err(e)
      case Ok(u) =>
        match ReadLines(read, b)
        case Err(e) => Err(e)
        case Ok(v) => Ok(u + v)
  {
    if ReadLines(read, a).Err? {
      ReadLinesConcatLeftFails(read, a, b);
    } else if ReadLines(read, b).Err? {
      ReadLinesConcatRightFails(read, a, b);
    } else {
      ReadLinesConcatBothRead(read, a, b);
    }
  }

  /** A file of one line reads as that line. */
  lemma ReadLinesSingle<T, E>(read: string -> Result<T, E>, line: string)
    ensures read(line).Ok? ==> ReadLines(read, [line]) == Ok([read(line).value])
    ensures read(line).Err? ==> ReadLines(read, [line]) == Err(read(line).error)
  {
    assert [line][0] == line && [line][1..] == [];
    assert ReadLines(read, []) == Ok([]);
    if read(line).Ok? {
      assert [read(line).value] + [] == [read(line).value];
    }
  }

  /** Reading one more line: its record is appended, or its failure is the failure of the whole file. */
  lemma ReadLinesStep<T, E>(read: string -> Result<T, E>, lines: seq<string>, k: nat)
    requires k < |lines| && ReadLines(read, lines[..k]).Ok?
    ensures read(lines[k]).Ok? ==> ReadLines(read, lines[..k + 1]) == Ok(ReadLines(read, lines[..k]).value + [read(lines[k]).value])
    ensures read(lines[k]).Err? ==> ReadLines(read, lines) == Err(read(lines[k]).error)
  {
    if read(lines[k]).Ok? {
      assert lines[..k + 1] == lines[..k] + [lines[k]];
      ReadLinesSingle(read, lines[k]);
      ReadLinesConcatBothRead(read, lines[..k], [lines[k]]);
    } else {
      ReadLinesAllRead(read, lines[..k]);
      forall i | 0 <= i < k
        ensures read(lines[i]).Ok?
      {
        assert lines[..k][i] == lines[i];
      }
      FailFast(read, lines, k);
    }
  }

  /** What `getAll` yields for a file: every line decoded as `create` does, in file order. */
  function DecodeAll(lines: seq<string>): Result<seq<StudentData>, Failure>
  {
    ReadLines(Decode, lines)
  }

  /** What `findByIndex(index)` yields: the decoded line at `index`, or no student when there is none. */
  function Lookup(lines: seq<string>, index: int): Result<Option<StudentData>, Failure>
  {
    if 0 <= index < |lines| then
      match Decode(lines[index])
      case Err(e) => Err(e)
      case Ok(s) => Ok(Some(s))
    else Ok(None)
  }

  /** When the whole file reads, looking up a line agrees with reading everything. */
  lemma LookupMatchesDecodeAll(lines: seq<string>, index: int)
    requires DecodeAll(lines).Ok?
    ensures 0 <= index < |lines| ==> Lookup(lines, index) == Ok(Some(DecodeAll(lines).value[index]))
    ensures !(0 <= index < |lines|) ==> Lookup(lines, index) == Ok(None)
  {
    ReadLinesAllRead(Decode, lines);
  }

  /** The elements of `xs` that satisfy `p`, in their order in `xs`. */
  function Keep<T>(p: T -> bool, xs: seq<T>): (r: seq<T>)
    ensures |r| <= |xs|
  {
    if xs == [] then []
    else
      var last := xs[|xs| - 1];
      Keep(p, xs[..|xs| - 1]) + if p(last) then [last] else []
  }

  /** Filtering one more element: it is kept after the others exactly when it satisfies `p`. */
  lemma KeepStep<T>(p: T -> bool, xs: seq<T>, x: T)
    ensures Keep(p, xs + [x]) == Keep(p, xs) + if p(x) then [x] else []
  {
    assert (xs + [x])[..|xs|] == xs;
  }

  /** Filtering keeps exactly the elements that satisfy the predicate. */
  lemma {:induction false} KeepSelects<T>(p: T -> bool, xs: seq<T>, x: T)
    ensures x in Keep(p, xs) <==> x in xs && p(x)
  {
    if xs != [] {
      KeepSelects(p, xs[..|xs| - 1], x);
      assert xs == xs[..|xs| - 1] + [xs[|xs| - 1]];
    }
  }

  /** Filtering keeps order: the kept elements of a concatenation are those of each part, in turn. */
  lemma {:induction false} KeepConcat<T>(p: T -> bool, a: seq<T>, b: seq<T>)
    ensures Keep(p, a + b) == Keep(p, a) + Keep(p, b)
  {
    if b == [] {
      assert a + b == a && Keep(p, b) == [];
    } else {
      var ab := a + b;
      var last := b[|b| - 1];
      assert ab[|ab| - 1] == last && ab[..|ab| - 1] == a + b[..|b| - 1];
      KeepConcat(p, a, b[..|b| - 1]);
      var tail := if p(last) then [last] else [];
      assert Keep(p, ab) == Keep(p, a + b[..|b| - 1]) + tail;
      assert Keep(p, b) == Keep(p, b[..|b| - 1]) + tail;
    }
  }

  /** `GroupFilter`: the predicate that matches the students of one group. */
  datatype GroupFilter = GroupFilter(targetGroup: string) {
    predicate Test(s: StudentData)
    {
      targetGroup == s.group
    }
  }

  /** Filtering by a group keeps exactly the students of that group. */
  lemma GroupFilterSelects(g: GroupFilter, xs: seq<StudentData>)
    ensures forall x :: x in Keep(g.Test, xs) <==> x in xs && x.group == g.targetGroup
  {
    forall x {
      KeepSelects(g.Test, xs, x);
    }
  }

  /** The lines that `add` writes for `xs`, one per student, in order. */
  function SerializeAll(xs: seq<StudentData>): seq<string>
  {
    seq(|xs|, i requires 0 <= i < |xs| => Serialize(xs[i]))
  }

  /** Writing one more student of `xs` appends its line. */
  lemma SerializeAllStep(xs: seq<StudentData>, i: nat)
    requires i < |xs|
    ensures SerializeAll(xs[..i + 1]) == SerializeAll(xs[..i]) + [Serialize(xs[i])]
  {
    assert xs[..i + 1][i] == xs[i];
  }

  /** Storable students: they survive the line format and pass validation. */
  ghost predicate Storable(s: StudentData)
  {
    CommaFree(s) && WellFormed(s)
  }

  /** Appending storable students to a readable file makes them the last records read, in order. */
  lemma ReadBackAppended(lines: seq<string>, xs: seq<StudentData>)
    requires forall i :: 0 <= i < |xs| ==> Storable(xs[i])
    ensures DecodeAll(lines + SerializeAll(xs)) ==
      match DecodeAll(lines)
      case Err(e) => Err(e)
      case Ok(u) => Ok(u + xs)
  {
    var written := SerializeAll(xs);
    forall i | 0 <= i < |xs|
      ensures Decode(written[i]) == Ok(xs[i])
    {
      RoundTrip(xs[i]);
    }
    ReadLinesAllRead(Decode, written);
    assert DecodeAll(written).value == xs;
    ReadLinesConcat(Decode, lines, written);
  }

  /** A file written from storable students alone reads back as exactly those students, in order. */
  lemma ReadBackAll(xs: seq<StudentData>)
    requires forall i :: 0 <= i < |xs| ==> Storable(xs[i])
    ensures DecodeAll(SerializeAll(xs)) == Ok(xs)
  {
    ReadBackAppended([], xs);
    assert [] + SerializeAll(xs) == SerializeAll(xs);
    assert DecodeAll([]) == Ok([]) && [] + xs == xs;
  }

  /**
   * `add` does not validate: once a student that fails validation is stored, every later
   * read of the whole file fails, with that student's validation error if the lines before
   * it read.
   */
  lemma InvalidStudentBreaksReads(lines: seq<string>, s: StudentData)
    requires CommaFree(s) && !WellFormed(s)
    ensures DecodeAll(lines + [Serialize(s)]).Err?
    ensures DecodeAll(lines).Ok? ==> DecodeAll(lines + [Serialize(s)]) == Err(CreationFailed(InvalidStudent(s)))
  {
    RoundTrip(s);
    var all := lines + [Serialize(s)];
    assert all[|lines|] == Serialize(s);
    ReadLinesAllRead(Decode, all);
    if DecodeAll(lines).Ok? {
      ReadLinesAllRead(Decode, lines);
      assert forall i :: 0 <= i < |lines| ==> all[i] == lines[i];
      FailFast(Decode, all, |lines|);
    }
  }

  /** The values of a sequence of student objects. */
  ghost function Values(students: seq<Student>): (r: seq<StudentData>)
    reads students
    ensures |r| == |students| && forall i :: 0 <= i < |students| ==> r[i] == students[i].Value()
  {
    if students == [] then [] else [students[0].Value()] + Values(students[1..])
  }

  /** The store, bound to one file whose lines are held in `lines`. */
  class CsvManager {
    /** The file's lines, first line first, without line terminators. */
    var lines: seq<string>

    /** A manager for a file that currently holds `existing`. */
    constructor (existing: seq<string>)
      ensures lines == existing
    {
      lines := existing;
    }

    /**
     * `create(line)`: a new student, filled in place from the line and then validated;
     * the result is the new student's value or the failure that `create` throws.
     */
    method Create(line: string) returns (r: Result<StudentData, Failure>)
      ensures r == Decode(line)
    {
      var item := new Student();
      var outcome := item.Deserialize(line);
      if outcome.Fail? {
        return Err(CreationFailed(outcome.error));
      }
      var verdict := Validate(item.Value());
      if verdict.Fail? {
        return Err(CreationFailed(verdict.error));
      }
      return Ok(item.Value());
    }

    /** `getAll`: one student per line, in file order, or the failure of the first bad line. */
    method GetAll() returns (r: Result<seq<StudentData>, Failure>)
      ensures r == DecodeAll(lines)
    {
      var result: seq<StudentData> := [];
      var k := 0;
      while k < |lines|
        invariant 0 <= k <= |lines|
        invariant ReadLines(Decode, lines[..k]) == Ok(result)
      {
        var item := Create(lines[k]);
        ReadLinesStep(Decode, lines, k);
        if item.Err? {
          return Err(item.error);
        }
        result := result + [item.value];
        k := k + 1;
      }
      assert lines[..k] == lines;
      return Ok(result);
    }

    /**
     * `findByIndex(index)`: counts lines up to `index` and decodes that line only; no
     * student when `index` is negative or past the last line.
     */
    method FindByIndex(index: int) returns (r: Result<Option<StudentData>, Failure>)
      ensures r == Lookup(lines, index)
    {
      var currentIndex := 0;
      while currentIndex < |lines|
        invariant 0 <= currentIndex <= |lines|
        invariant !(0 <= index < currentIndex)
      {
        if currentIndex == index {
          var item := Create(lines[currentIndex]);
          if item.Err? {
            return Err(item.error);
          }
          return Ok(Some(item.value));
        }
        currentIndex := currentIndex + 1;
      }
      return Ok(None);
    }

    /**
     * `filter(p)`: the students of `getAll` that satisfy `p`, in file order; fails on any
     * bad line, whether or not it would have matched.
     */
    method Filter(p: StudentData -> bool) returns (r: Result<seq<StudentData>, Failure>)
      ensures r.Ok? <==> DecodeAll(lines).Ok?
      ensures r.Ok? ==> r.value == Keep(p, DecodeAll(lines).value)
      ensures r.Err? ==> DecodeAll(lines) == Err(r.error)
    {
      var kept: seq<StudentData> := [];
      ghost var read: seq<StudentData> := [];
      var k := 0;
      while k < |lines|
        invariant 0 <= k <= |lines|
        invariant ReadLines(Decode, lines[..k]) == Ok(read)
        invariant kept == Keep(p, read)
      {
        var item := Create(lines[k]);
        ReadLinesStep(Decode, lines, k);
        if item.Err? {
          return Err(item.error);
        }
        KeepStep(p, read, item.value);
        if p(item.value) {
          kept := kept + [item.value];
        }
        read := read + [item.value];
        k := k + 1;
      }
      assert lines[..k] == lines;
      return Ok(kept);
    }

    /** `addInternal(item, append)`: writes the student's line after the file's lines, or in place of them. */
    method AddInternal(item: Student, appendToFile: bool)
      modifies this
      ensures lines == (if appendToFile then old(lines) else []) + [Serialize(item.Value())]
    {
      if appendToFile {
        lines := lines + [Serialize(item.Value())];
      } else {
        lines := [Serialize(item.Value())];
      }
    }

    /** `add(item)`: the student's line becomes the new last line. */
    method Add(item: Student)
      modifies this
      ensures lines == old(lines) + [Serialize(item.Value())]
    {
      AddInternal(item, true);
    }

    /** `clearAll`: the file is left empty. */
    method ClearAll()
      modifies this
      ensures lines == []
    {
      lines := [];
    }

    /** `addAll(items)`: each student's line is appended, in the order of `items`. */
    method AddAll(items: seq<Student>)
      modifies this
      ensures lines == old(lines) + SerializeAll(old(Values(items)))
    {
      ghost var values := Values(items);
      for i := 0 to |items|
        invariant lines == old(lines) + SerializeAll(values[..i])
      {
        assert items[i].Value() == values[i];
        AddInternal(items[i], true);
        SerializeAllStep(values, i);
      }
      assert values[..|items|] == values;
    }
  }

  /** The file the demonstration writes, two students and then others, reads back as those students. */
  lemma DemonstrationFile(john: StudentData, harry: StudentData, others: seq<StudentData>)
    requires Storable(john) && Storable(harry)
    requires forall i :: 0 <= i < |others| ==> Storable(others[i])
    ensures DecodeAll(SerializeAll([john, harry]) + SerializeAll(others)) == Ok([john, harry] + others)
  {
    var first := [john, harry];
    ReadBackAll(first);
    ReadBackAppended(SerializeAll(first), others);
  }

  /** Filtering the demonstration's students by the first one's group keeps it, then the matching others. */
  lemma DemonstrationFilter(john: StudentData, harry: StudentData, others: seq<StudentData>)
    requires john.group != harry.group
    ensures Keep(GroupFilter(john.group).Test, [john, harry] + others) ==
      [john] + Keep(GroupFilter(john.group).Test, others)
  {
    var first := [john, harry];
    var test := GroupFilter(john.group).Test;
    assert Keep(test, first) == [john] by {
      assert first[..1] == [john] && first[..1][..0] == [];
    }
    KeepConcat(test, first, others);
  }

  /** One new student object per value, as `Student.create` makes them, in order. */
  method NewStudents(values: seq<StudentData>) returns (students: seq<Student>)
    ensures Values(students) == values
  {
    students := [];
    for i := 0 to |values|
      invariant |students| == i
      invariant forall j :: 0 <= j < i ==> students[j].Value() == values[j]
    {
      var v := values[i];
      var student := new Student.Create(v.name, v.surname, v.age, v.group);
      students := students + [student];
    }
  }

  /**
   * The writing half of the store's own demonstration: clear the file, add two students,
   * then add a collection of others.
   */
  method WriteDemonstration(existing: seq<string>, john: StudentData, harry: StudentData, others: seq<StudentData>)
    returns (db: CsvManager)
    ensures db.lines == SerializeAll([john, harry]) + SerializeAll(others)
  {
    db := new CsvManager(existing);
    db.ClearAll();
    var first := new Student.Create(john.name, john.surname, john.age, john.group);
    db.Add(first);
    assert db.lines == [Serialize(john)];
    var next := new Student.Create(harry.name, harry.surname, harry.age, harry.group);
    db.Add(next);
    assert db.lines == [Serialize(john), Serialize(harry)] == SerializeAll([john, harry]);
    var students := NewStudents(others);
    ghost var written := db.lines;
    db.AddAll(students);
    assert db.lines == written + SerializeAll(others);
  }

  /**
   * The store's own demonstration: write two students of different groups and then others,
   * read everything back, filter by the first student's group and look up the second line.
   */
  method FilterByGroupScenario(existing: seq<string>, john: StudentData, harry: StudentData, others: seq<StudentData>)
    returns (everyone: Result<seq<StudentData>, Failure>, byGroup: Result<seq<StudentData>, Failure>,
             second: Result<Option<StudentData>, Failure>)
    requires Storable(john) && Storable(harry) && john.group != harry.group
    requires forall i :: 0 <= i < |others| ==> Storable(others[i])
    ensures everyone == Ok([john, harry] + others)
    ensures byGroup == Ok([john] + Keep(GroupFilter(john.group).Test, others))
    ensures second == Ok(Some(harry))
  {
    var db := WriteDemonstration(existing, john, harry, others);
    DemonstrationFile(john, harry, others);
    LookupMatchesDecodeAll(db.lines, 1);
    DemonstrationFilter(john, harry, others);
    everyone := db.GetAll();
    byGroup := db.Filter(GroupFilter(john.group).Test);
    second := db.FindByIndex(1);
  }
}
