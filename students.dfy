/**
 * The `Student` record and its one-line text form `name,surname,group,age`.
 */
module Students {
  import opened Results
  import opened JavaText

  /** The field separator of the line format. */
  const Delimiter: char := ','

  /** The four fields of a student, as one value. */
  datatype StudentData = StudentData(name: string, surname: string, group: string, age: Int32)

  /** Why a line did not become a usable student. */
  datatype Cause =
    | WrongFieldCount(parts: nat)           // the line did not split into four fields
    | MalformedNumber(text: string)         // the age field is not an `int`
    | InvalidStudent(student: StudentData)  // the fields were read but break the student invariant

  /** No text field holds the delimiter, so the line format can carry the student. */
  predicate CommaFree(s: StudentData)
  {
    Delimiter !in s.name && Delimiter !in s.surname && Delimiter !in s.group
  }

  /** `serializeToString`: the fields in the order name, surname, group, age, comma-separated. */
  function Serialize(s: StudentData): string
  {
    s.name + [Delimiter] + s.surname + [Delimiter] + s.group + [Delimiter] + FormatInt(s.age)
  }

  /**
   * What `deserialize` stores into a student: the line must split into exactly four
   * parts and the fourth must be an `int`.
   */
  function Parse(line: string): (r: Result<StudentData, Cause>)
    ensures |Split(line, Delimiter)| != 4 <==> r == Err(WrongFieldCount(|Split(line, Delimiter)|))
    ensures r.Ok? ==> CommaFree(r.value)
  {
    var parts := Split(line, Delimiter);
    if |parts| != 4 then Err(WrongFieldCount(|parts|))
    else match ParseInt(parts[3])
      case None => Err(MalformedNumber(parts[3]))
      case Some(age) => Ok(StudentData(parts[0], parts[1], parts[2], age))
  }

  /**
   * Any four comma-free fields, the last one non-empty, joined by commas: the line is read
   * with its first three fields as name, surname and group, and it is accepted exactly when
   * the fourth is an `int`, which becomes the age; otherwise it is rejected for that number.
   */
  lemma ParseFourFields(a: string, b: string, c: string, e: string)
    requires Delimiter !in a && Delimiter !in b && Delimiter !in c && Delimiter !in e && e != ""
    ensures Parse(a + [Delimiter] + b + [Delimiter] + c + [Delimiter] + e) ==
      match ParseInt(e)
      case None => Err(MalformedNumber(e))
      case Some(n) => Ok(StudentData(a, b, c, n))
  {
    SplitFourFields(a, b, c, e, Delimiter);
  }

  /**
   * A serialized line splits back into the four fields in their order exactly when no
   * text field holds the delimiter; otherwise it splits into more than four parts.
   */
  lemma SerializedFields(s: StudentData)
    ensures CommaFree(s) ==> Split(Serialize(s), Delimiter) == [s.name, s.surname, s.group, FormatInt(s.age)]
    ensures !CommaFree(s) ==> |Split(Serialize(s), Delimiter)| > 4
  {
    if CommaFree(s) {
      SplitFourFields(s.name, s.surname, s.group, FormatInt(s.age), Delimiter);
    } else {
      var age := FormatInt(s.age);
      PiecesOfFourFields(s.name, s.surname, s.group, age, Delimiter);
      PiecesWithoutDelimiter(age, Delimiter);
      var pieces := Pieces(Serialize(s), Delimiter);
      assert |pieces| > 4 by {
        var d := Delimiter;
        if d in s.name { PiecesOfDelimited(s.name, d); }
        if d in s.surname { PiecesOfDelimited(s.surname, d); }
        if d in s.group { PiecesOfDelimited(s.group, d); }
      }
      assert Delimiter in Serialize(s) by { assert Serialize(s)[|s.name|] == Delimiter; }
      assert DropTrailingEmpty(pieces) == pieces;
    }
  }

  /** Reading a serialized student gives it back exactly when no text field holds the delimiter. */
  lemma RoundTrip(s: StudentData)
    ensures Parse(Serialize(s)) == Ok(s) <==> CommaFree(s)
    ensures !CommaFree(s) ==> Parse(Serialize(s)).Err? && Parse(Serialize(s)).error.WrongFieldCount?
  {
    SerializedFields(s);
    if CommaFree(s) {
      ParseIntFormatInt(s.age);
    }
  }

  /** Re-reading the canonical line of a parsed student gives the same student. */
  lemma ParseSerializeParse(line: string)
    requires Parse(line).Ok?
    ensures Parse(Serialize(Parse(line).value)) == Parse(line)
  {
    RoundTrip(Parse(line).value);
  }

  /**
   * A line is not read back byte for byte: delimiters after the age are dropped by the
   * split, so the line with one more delimiter reads as the same student.
   */
  lemma TrailingDelimiterAccepted(s: StudentData)
    requires CommaFree(s)
    ensures Parse(Serialize(s) + [Delimiter]) == Ok(s)
  {
    TrailingDelimiterIgnored(Serialize(s), Delimiter);
    RoundTrip(s);
  }

  /** An explicit `+` before a non-negative age is accepted and disappears when written again. */
  lemma PlusSignAccepted(s: StudentData)
    requires CommaFree(s) && s.age >= 0
    ensures Parse(s.name + [Delimiter] + s.surname + [Delimiter] + s.group + [Delimiter] + "+" + FormatInt(s.age)) == Ok(s)
  {
    var d := Delimiter;
    var digits := NatToDecimal(s.age);
    var signed := "+" + digits;
    assert FormatInt(s.age) == digits;
    assert s.name + [d] + s.surname + [d] + s.group + [d] + "+" + digits
      == s.name + [d] + s.surname + [d] + s.group + [d] + signed;
    assert ParseInt(signed) == Some(s.age) by {
      DecimalValueOfNatToDecimal(s.age);
      assert signed[1..] == digits;
    }
    assert d !in signed by { assert signed == ['+'] + digits; }
    ParseFourFields(s.name, s.surname, s.group, signed);
  }

  /** A delimiter right after the group is not an empty age: the line has three fields. */
  lemma TrailingDelimiterRejected(name: string, surname: string, group: string)
    requires Delimiter !in name && Delimiter !in surname && Delimiter !in group && group != ""
    ensures Parse(name + [Delimiter] + surname + [Delimiter] + group + [Delimiter]) == Err(WrongFieldCount(3))
  {
    var d := Delimiter;
    var line := name + [d] + surname + [d] + group;
    assert line + [d] == name + [d] + surname + [d] + group + [d];
    assert Split(line, d) == [name, surname, group] by {
      assert line == name + [d] + (surname + [d] + group);
      PiecesConcat(name, surname + [d] + group, d);
      PiecesConcat(surname, group, d);
      PiecesWithoutDelimiter(name, d);
      PiecesWithoutDelimiter(surname, d);
      PiecesWithoutDelimiter(group, d);
      assert Pieces(line, d) == [name, surname, group];
      assert d in line by { assert line[|name|] == d; }
    }
    TrailingDelimiterIgnored(line, d);
  }

  /** A student object; the store builds one per line and fills it in place. */
  class Student {
    var name: string
    var surname: string
    var group: string
    var age: Int32

    /** The fields of this object as one value. */
    function Value(): StudentData
      reads this
    {
      StudentData(name, surname, group, age)
    }

    /** `new Student()`: a student whose fields are still unset. */
    constructor ()
      ensures Value() == StudentData("", "", "", 0)
    {
      name, surname, group, age := "", "", "", 0;
    }

    /** `Student.create(name, surname, age, group)`. */
    constructor Create(name: string, surname: string, age: Int32, group: string)
      ensures Value() == StudentData(name, surname, group, age)
    {
      this.name, this.surname, this.group, this.age := name, surname, group, age;
    }

    /**
     * `deserialize(text)`: on success the fields are those `Parse` reads. On failure the
     * error is the one `Parse` reports, and the fields are as the source leaves them: all
     * unchanged for a wrong field count, and name, surname and group already overwritten
     * when only the age fails to parse.
     */
    method Deserialize(text: string) returns (outcome: Outcome<Cause>)
      modifies this
      ensures outcome.Pass? <==> Parse(text).Ok?
      ensures outcome.Pass? ==> Value() == Parse(text).value
      ensures outcome.Fail? ==> Parse(text) == Err(outcome.error)
      ensures var parts := Split(text, Delimiter);
              if |parts| != 4 then Value() == old(Value())
              else name == parts[0] && surname == parts[1] && group == parts[2]
                   && (outcome.Fail? ==> age == old(age))
    {
      var parts := Split(text, Delimiter);
      if |parts| == 4 {
        name := parts[0];
        surname := parts[1];
        group := parts[2];
        var parsed := ParseInt(parts[3]);
        if parsed.None? {
          return Fail(MalformedNumber(parts[3]));
        }
        age := parsed.value;
        outcome := Pass;
      } else {
        outcome := Fail(WrongFieldCount(|parts|));
      }
    }
  }
}
