/** The in-memory grade table of the student grade system: a student's grades are added
    and a student is removed in place, and the console loops that read a menu option and a
    grade accept an input line only under fixed conditions. */
module StudentGradeSystem {
  import opened Wrappers

  /** Every grade in the table lies in [0, 100]. */
  predicate GradesInRange(grades: map<string, seq<int>>) {
    forall student, i :: student in grades && 0 <= i < |grades[student]| ==>
      0 <= grades[student][i] <= 100
  }

  /** The table after `add_grade(student, grade)`. */
  function WithGrade(grades: map<string, seq<int>>, student: string, grade: int): map<string, seq<int>> {
    if student !in grades then grades[student := [grade]]
    else grades[student := grades[student] + [grade]]
  }

  /** The table after `remove_student(student)`: the entry goes only when its list is
      non-empty, since an empty list is falsy. */
  function Without(grades: map<string, seq<int>>, student: string): map<string, seq<int>> {
    if student in grades && grades[student] != [] then grades - {student} else grades
  }

  /** Adding a grade keeps every other student's list, gives a new student the list
      holding that grade alone, and appends it to an existing student's list without
      touching the earlier grades. */
  lemma WithGradeSpec(grades: map<string, seq<int>>, student: string, grade: int)
    ensures var r := WithGrade(grades, student, grade);
      && r.Keys == grades.Keys + {student}
      && (forall other :: other in grades && other != student ==> r[other] == grades[other])
      && (student !in grades ==> r[student] == [grade])
      && (student in grades ==>
            && |r[student]| == |grades[student]| + 1
            && r[student][..|grades[student]|] == grades[student]
            && r[student][|grades[student]|] == grade)
  {
    var r := WithGrade(grades, student, grade);
    if student in grades {
      assert r[student][..|grades[student]|] == grades[student];
    }
  }

  /** Removing a student deletes exactly that entry when its list is non-empty, leaves
      the table as it was otherwise, and never touches another student. */
  lemma WithoutSpec(grades: map<string, seq<int>>, student: string)
    ensures var r := Without(grades, student);
      && (student !in r <==> student !in grades || grades[student] != [])
      && (student in grades && grades[student] != [] ==> r.Keys == grades.Keys - {student})
      && (student !in grades || grades[student] == [] ==> r == grades)
      && (forall other :: other != student ==> (other in r <==> other in grades))
      && (forall other :: other in r && other != student ==> r[other] == grades[other])
  {
  }

  /** Once a grade has been added, removing that student always succeeds: the table
      returns to what it was without the student. */
  lemma AddThenRemove(grades: map<string, seq<int>>, student: string, grade: int)
    ensures Without(WithGrade(grades, student, grade), student) == grades - {student}
  {
    var r := WithGrade(grades, student, grade);
    assert r[student] != [] by { assert |r[student]| > 0; }
    assert r - {student} == grades - {student};
  }

  /** Removing twice is removing once. */
  lemma WithoutIdempotent(grades: map<string, seq<int>>, student: string)
    ensures Without(Without(grades, student), student) == Without(grades, student)
  {
  }

  /** Adding a grade in [0, 100] and removing a student keep every grade in [0, 100]. */
  lemma GradesStayInRange(grades: map<string, seq<int>>, student: string, grade: int)
    requires GradesInRange(grades)
    ensures 0 <= grade <= 100 ==> GradesInRange(WithGrade(grades, student, grade))
    ensures GradesInRange(Without(grades, student))
  {
    if 0 <= grade <= 100 {
      var r := WithGrade(grades, student, grade);
      forall other, i | other in r && 0 <= i < |r[other]| ensures 0 <= r[other][i] <= 100 {
        if other == student && student in grades && i < |grades[student]| {
          assert r[other][i] == grades[student][i];
        }
      }
    }
  }

  /** A student's grade table. */
  class Student {
    var studentGrades: map<string, seq<int>>

    /** The table starts from a given map (the CSV file it is read from is not modelled). */
    constructor (grades: map<string, seq<int>>)
      ensures studentGrades == grades
    {
      studentGrades := grades;
    }

    /** `add_grade(student, grade)`. */
    method AddGrade(student: string, grade: int)
      modifies this
      ensures studentGrades == WithGrade(old(studentGrades), student, grade)
      ensures student in studentGrades && |studentGrades[student]| > 0
      ensures studentGrades[student][|studentGrades[student]| - 1] == grade
      ensures GradesInRange(old(studentGrades)) && 0 <= grade <= 100 ==> GradesInRange(studentGrades)
    {
      if GradesInRange(studentGrades) {
        GradesStayInRange(studentGrades, student, grade);
      }
      if student !in studentGrades {
        studentGrades := studentGrades[student := [grade]];
      } else {
        studentGrades := studentGrades[student := studentGrades[student] + [grade]];
      }
    }

    /** `remove_student(student)`; the message printed for a missing student is left out. */
    method RemoveStudent(student: string)
      modifies this
      ensures studentGrades == Without(old(studentGrades), student)
      ensures student !in studentGrades || studentGrades == old(studentGrades)
      ensures GradesInRange(old(studentGrades)) ==> GradesInRange(studentGrades)
    {
      if GradesInRange(studentGrades) {
        GradesStayInRange(studentGrades, student, 0);
      }
      if student in studentGrades && studentGrades[student] != [] {
        studentGrades := studentGrades - {student};
      }
    }
  }

  /** The whitespace `int()` strips around its argument (the ASCII part of it). */
  predicate IsSpace(c: char) {
    c == ' ' || c == '\t' || c == '\n' || c == '\r' || c == '\U{B}' || c == '\U{C}'
  }

  predicate IsDigit(c: char) {
    '0' <= c <= '9'
  }

  predicate AllDigits(s: string) {
    forall i :: 0 <= i < |s| ==> IsDigit(s[i])
  }

  function StripLeft(s: string): string {
    if |s| > 0 && IsSpace(s[0]) then StripLeft(s[1..]) else s
  }

  function StripRight(s: string): string {
    if |s| > 0 && IsSpace(s[|s| - 1]) then StripRight(s[..|s| - 1]) else s
  }

  function Strip(s: string): string {
    StripRight(StripLeft(s))
  }

  /** The value of a string of decimal digits, most significant first. */
  function DigitsValue(s: string): nat
    requires AllDigits(s)
  {
    if s == [] then 0
    else 10 * DigitsValue(s[..|s| - 1]) + (s[|s| - 1] as int - '0' as int)
  }

  /** `int(line)`: surrounding whitespace is ignored, then an optional sign and at least
      one decimal digit; anything else is a `ValueError`. */
  function ParseInt(line: string): Result<int, PyError> {
    var t := Strip(line);
    var negative := |t| > 0 && t[0] == '-';
    var body := if |t| > 0 && (t[0] == '-' || t[0] == '+') then t[1..] else t;
    if body == [] || !AllDigits(body) then Err(ValueError)
    else
      var magnitude: int := DigitsValue(body);
      Ok(if negative then -magnitude else magnitude)
  }

  /** The decimal digits of `n`, without leading zeros. */
  function Digits(n: nat): string {
    if n < 10 then ['0' + n as char]
    else Digits(n / 10) + ['0' + (n % 10) as char]
  }

  /** `str(n)`. */
  function IntToString(n: int): string {
    if n < 0 then "-" + Digits(-n) else Digits(n)
  }

  lemma {:induction false} DigitsValueOfDigits(n: nat)
    ensures |Digits(n)| > 0 && AllDigits(Digits(n))
    ensures DigitsValue(Digits(n)) == n
    decreases n
  {
    if n >= 10 {
      DigitsValueOfDigits(n / 10);
      var ds := Digits(n);
      assert ds[..|ds| - 1] == Digits(n / 10);
    }
  }

  /** `int(str(n)) == n`: every integer's decimal form parses back to it. */
  lemma ParseIntRoundTrip(n: int)
    ensures ParseInt(IntToString(n)) == Ok(n)
  {
    var m := if n < 0 then -n else n;
    DigitsValueOfDigits(m);
    var s := IntToString(n);
    assert !IsSpace(s[0]) && !IsSpace(s[|s| - 1]);
    assert Strip(s) == s;
    if n < 0 {
      assert s[1..] == Digits(m);
    } else {
      assert s[0] != '-' && s[0] != '+';
    }
  }

  /** Stripping a blank string from the left leaves nothing. */
  lemma {:induction false} StripLeftAllSpace(s: string)
    requires forall i :: 0 <= i < |s| ==> IsSpace(s[i])
    ensures StripLeft(s) == []
    decreases |s|
  {
    if |s| > 0 {
      StripLeftAllSpace(s[1..]);
    }
  }

  /** Stripping from the left either consumes a trailing space along with everything or
      leaves it at the end. */
  lemma {:induction false} StripLeftAppendSpace(s: string, c: char)
    requires IsSpace(c)
    ensures StripLeft(s + [c]) == StripLeft(s) + [c] || StripLeft(s + [c]) == []
    ensures StripLeft(s) == [] ==> StripLeft(s + [c]) == []
    ensures StripLeft(s) != [] ==> StripLeft(s + [c]) == StripLeft(s) + [c]
    decreases |s|
  {
    if |s| == 0 {
      assert StripLeft([c]) == StripLeft([c][1..]);
    } else if IsSpace(s[0]) {
      assert (s + [c])[1..] == s[1..] + [c];
      StripLeftAppendSpace(s[1..], c);
    }
  }

  /** `int()` does not see whitespace added before or after its argument. */
  lemma ParseIntIgnoresPadding(s: string, c: char)
    requires IsSpace(c)
    ensures ParseInt([c] + s) == ParseInt(s)
    ensures ParseInt(s + [c]) == ParseInt(s)
  {
    assert ([c] + s)[1..] == s;
    StripLeftAppendSpace(s, c);
    var l := StripLeft(s);
    if l == [] {
      assert StripRight([]) == [];
    } else {
      assert (l + [c])[..|l + [c]| - 1] == l;
    }
  }

  /** An input line `get_grade` accepts: an integer in [0, 100]. */
  predicate ValidGrade(line: string) {
    ParseInt(line).Ok? && 0 <= ParseInt(line).value <= 100
  }

  /** A blank line (empty, or only whitespace) is a `ValueError` for `int()`, so
      `get_grade` asks again. */
  lemma BlankLineIsRejected(line: string)
    requires forall i :: 0 <= i < |line| ==> IsSpace(line[i])
    ensures ParseInt(line) == Err(ValueError)
    ensures !ValidGrade(line)
  {
    StripLeftAllSpace(line);
  }

  /** `get_grade()`, reading its lines from `inputs`: the first line that parses as an
      integer in [0, 100] is returned; end of input raises `EOFError`. */
  method GetGrade(inputs: seq<string>) returns (r: Result<int, PyError>)
    ensures r.Err? <==> forall i :: 0 <= i < |inputs| ==> !ValidGrade(inputs[i])
    ensures r.Err? ==> r.error == EOFError
    ensures r.Ok? ==> 0 <= r.value <= 100
    ensures r.Ok? ==> exists i :: (0 <= i < |inputs| && ParseInt(inputs[i]) == Ok(r.value)
      && forall j :: 0 <= j < i ==> !ValidGrade(inputs[j]))
  {
    var i := 0;
    while i < |inputs|
      invariant 0 <= i <= |inputs|
      invariant forall j :: 0 <= j < i ==> !ValidGrade(inputs[j])
    {
      match ParseInt(inputs[i]) {
        case Err(_) =>
        case Ok(grade) =>
          if 0 <= grade <= 100 {
            return Ok(grade);
          }
      }
      i := i + 1;
    }
    return Err(EOFError);
  }

  /** `selection(text, choice)`, reading its lines from `inputs`: lines are read until one
      is among `choice`, which is returned as `int(option)`; end of input raises
      `EOFError`, and a chosen option that is not an integer raises `ValueError`. */
  method Selection(choice: seq<string>, inputs: seq<string>) returns (r: Result<int, PyError>)
    ensures r.Err? && r.error == EOFError <==> forall i :: 0 <= i < |inputs| ==> inputs[i] !in choice
    ensures r.Err? ==> r.error == EOFError || r.error == ValueError
    ensures r != Err(EOFError) ==> exists i :: (0 <= i < |inputs| && inputs[i] in choice
      && (forall j :: 0 <= j < i ==> inputs[j] !in choice)
      && r == ParseInt(inputs[i]))
    ensures r.Ok? ==> exists option :: option in choice && ParseInt(option) == Ok(r.value)
  {
    var i := 0;
    while i < |inputs| && inputs[i] !in choice
      invariant 0 <= i <= |inputs|
      invariant forall j :: 0 <= j < i ==> inputs[j] !in choice
    {
      i := i + 1;
    }
    if i == |inputs| {
      return Err(EOFError);
    }
    r := ParseInt(inputs[i]);
  }

  /** A single decimal digit parses to its value. */
  lemma SingleDigitParses(c: char)
    requires IsDigit(c)
    ensures ParseInt([c]) == Ok(c as int - '0' as int)
  {
    assert StripLeft([c]) == [c];
    assert StripRight([c]) == [c];
    assert c != '-' && c != '+';
    assert AllDigits([c]);
    assert [c][..0] == [];
    assert DigitsValue([c]) == c as int - '0' as int;
  }

  /** Every option of the main menu (`"1"` to `"4"`) parses, to a number from 1 to 4, so
      `selection` over that menu never raises `ValueError`. */
  lemma MenuOptionsParse()
    ensures forall option :: option in ["1", "2", "3", "4"] ==>
      ParseInt(option).Ok? && 1 <= ParseInt(option).value <= 4
  {
    forall option | option in ["1", "2", "3", "4"]
      ensures ParseInt(option).Ok? && 1 <= ParseInt(option).value <= 4
    {
      assert option == [option[0]] && '1' <= option[0] <= '4';
      SingleDigitParses(option[0]);
    }
  }
}
