/**
 * The `Student` table's rows, its constraints, and the field checks that the
 * register and update handlers run before they write.
 */
module Validation {
  import opened Wrappers
  import opened PyText

  /** One row of the `Student` table (its `id` is the table's key). */
  datatype Student = Student(name: string, rollNo: string, email: string, age: int)

  /** The four raw fields of a submitted register or update form. */
  datatype Form = Form(name: string, rollNo: string, email: string, age: string)

  /** Why a handler refused a request or a write did not happen. */
  datatype Error =
    | InvalidEmail     // "Invalid email address."
    | InvalidAge       // "Age must be a positive number."
    | AgeTooLong       // `int(age)` raises ValueError past the digit limit; nothing catches it (HTTP 500)
    | DuplicateRollNo  // "Roll number already exists."
    | DuplicateEmail   // "Email already exists."
    | NotFound         // get_or_404
    | CommitFailed     // an exception from commit, after which the session is rolled back

  /** The table: primary key `id` to row. */
  type Table = map<int, Student>

  /** The form as the handlers read it: every field passed through `strip()`. */
  function Stripped(f: Form): (g: Form)
    ensures IsStripped(g.name) && IsStripped(g.rollNo) && IsStripped(g.email) && IsStripped(g.age)
  {
    Form(Strip(f.name), Strip(f.rollNo), Strip(f.email), Strip(f.age))
  }

  /** The most digits `int()` and `str()` convert between text and integer
      (CPython's default `sys.get_int_max_str_digits()`); beyond it they
      raise ValueError. */
  const MaxStrDigits: nat := 4300

  /** The age rule, `not age.isdigit() or int(age) <= 0` refusing, on the
      stripped text: accepted exactly when the text is all digits, no longer
      than the digit limit and not all '0', and then the age is that decimal
      value. An all-digit text past the limit makes `int` raise instead. */
  function ParseAge(age: string): (r: Result<int, Error>)
    ensures r.Success? <==>
      IsDigitString(age) && |age| <= MaxStrDigits && exists i :: 0 <= i < |age| && age[i] != '0'
    ensures r == Failure(AgeTooLong) <==> IsDigitString(age) && |age| > MaxStrDigits
    ensures r.Failure? ==> r == Failure(AgeTooLong) || r == Failure(InvalidAge)
    ensures r.Success? ==>
      r.value > 0 && r.value == DecimalValue(age) && |NatToDecimal(r.value)| <= MaxStrDigits
  {
    if !IsDigitString(age) then Failure(InvalidAge)
    else if |age| > MaxStrDigits then Failure(AgeTooLong)
    else
      DecimalValuePositive(age);
      DecimalLengthBound(age);
      if DecimalValue(age) > 0 then Success(DecimalValue(age)) else Failure(InvalidAge)
  }

  /** Some row other than `exclude` already has this roll number
      (`filter_by(roll_no=...)`, or `filter(roll_no == ..., id != exclude)`). */
  predicate RollNoTaken(t: Table, rollNo: string, exclude: Option<int>) {
    exists id :: id in t && Some(id) != exclude && t[id].rollNo == rollNo
  }

  /** Some row other than `exclude` already has this email. */
  predicate EmailTaken(t: Table, email: string, exclude: Option<int>) {
    exists id :: id in t && Some(id) != exclude && t[id].email == email
  }

  /** What every stored row satisfies: stripped text, an email the validator
      accepts, a positive age whose decimal text is within the digit limit. */
  ghost predicate RowOk(s: Student, emailOk: string -> bool) {
    && IsStripped(s.name) && IsStripped(s.rollNo) && IsStripped(s.email)
    && emailOk(s.email)
    && s.age > 0 && |NatToDecimal(s.age)| <= MaxStrDigits
  }

  /** The table invariant: engine-assigned ids are positive, every row is
      well formed, and `roll_no` and `email` are each unique. */
  ghost predicate TableOk(t: Table, emailOk: string -> bool) {
    && (forall id :: id in t ==> id >= 1 && RowOk(t[id], emailOk))
    && (forall i, j :: i in t && j in t && i != j ==> t[i].rollNo != t[j].rollNo)
    && (forall i, j :: i in t && j in t && i != j ==> t[i].email != t[j].email)
  }

  /**
   * The checks shared by register (`exclude == None`) and update
   * (`exclude == Some(id)`), run on the stripped form in the handlers' order:
   * email format, age, roll-number uniqueness, email uniqueness. The first
   * check that fails is the one reported (`ValidateReportsFirstFailure`);
   * when none fails the result is the row to write, with `age = int(age)`.
   */
  function Validate(emailOk: string -> bool, t: Table, f: Form, exclude: Option<int>): (r: Result<Student, Error>)
    ensures r.Success? ==>
      && ParseAge(Strip(f.age)).Success?
      && r.value == Student(Strip(f.name), Strip(f.rollNo), Strip(f.email), ParseAge(Strip(f.age)).value)
    ensures r.Success? ==> RowOk(r.value, emailOk)
    ensures r.Success? ==> !RollNoTaken(t, r.value.rollNo, exclude) && !EmailTaken(t, r.value.email, exclude)
  {
    var g := Stripped(f);
    if !emailOk(g.email) then Failure(InvalidEmail)
    else if ParseAge(g.age).Failure? then Failure(ParseAge(g.age).error)
    else if RollNoTaken(t, g.rollNo, exclude) then Failure(DuplicateRollNo)
    else if EmailTaken(t, g.email, exclude) then Failure(DuplicateEmail)
    else Success(Student(g.name, g.rollNo, g.email, ParseAge(g.age).value))
  }

  /** Each error is reported exactly when every check before it passes and
      its own check fails; the result is a row exactly when all four pass. */
  lemma ValidateReportsFirstFailure(emailOk: string -> bool, t: Table, f: Form, exclude: Option<int>)
    ensures var r, g := Validate(emailOk, t, f, exclude), Stripped(f);
      && (r == Failure(InvalidEmail) <==> !emailOk(g.email))
      && (r == Failure(InvalidAge) <==> emailOk(g.email) && ParseAge(g.age) == Failure(InvalidAge))
      && (r == Failure(AgeTooLong) <==> emailOk(g.email) && ParseAge(g.age) == Failure(AgeTooLong))
      && (r == Failure(DuplicateRollNo) <==>
            emailOk(g.email) && ParseAge(g.age).Success? && RollNoTaken(t, g.rollNo, exclude))
      && (r == Failure(DuplicateEmail) <==>
            emailOk(g.email) && ParseAge(g.age).Success? && !RollNoTaken(t, g.rollNo, exclude)
            && EmailTaken(t, g.email, exclude))
      && (r.Success? <==>
            emailOk(g.email) && ParseAge(g.age).Success? && !RollNoTaken(t, g.rollNo, exclude)
            && !EmailTaken(t, g.email, exclude))
  {
  }

  /** The age rule on sample inputs: "0", "-5", "abc" and ""
      are refused, "1" and "120" accepted. */
  lemma AgeExamples()
    ensures ParseAge("0") == ParseAge("-5") == ParseAge("abc") == ParseAge("") == Failure(InvalidAge)
    ensures ParseAge("1") == Success(1) && ParseAge("120") == Success(120)
  {
    assert !IsDigit('-') && !IsDigit('a');
    assert DecimalValue("0") == 0;
    assert DecimalValue("1") == 1;
    assert "12"[..1] == "1" && "120"[..2] == "12";
    assert DecimalValue("12") == 12;
    assert DecimalValue("120") == 120;
  }

  /** An all-digit age past the digit limit is not refused with a message:
      `int` raises, even for a value `int` would read as small. */
  lemma AgeDigitLimitExample()
    ensures ParseAge(seq(MaxStrDigits + 1, _ => '1')) == Failure(AgeTooLong)
    ensures ParseAge(seq(MaxStrDigits, _ => '0') + "7") == Failure(AgeTooLong)
  {
    var ones := seq(MaxStrDigits + 1, _ => '1');
    assert IsDigitString(ones);
    var zeros := seq(MaxStrDigits, _ => '0') + "7";
    assert IsDigitString(zeros) by {
      forall i | 0 <= i < |zeros| ensures IsDigit(zeros[i]) {
        if i < MaxStrDigits { assert zeros[i] == '0'; } else { assert zeros[i] == '7'; }
      }
    }
  }

  /** Whitespace around the age is cut before the age rule applies, and
      leading zeros are allowed: " 007 " is accepted as 7, " " is refused. */
  lemma StrippedAgeExamples()
    ensures ParseAge(Strip(" 007 ")) == Success(7)
    ensures ParseAge(Strip(" ")) == Failure(InvalidAge)
  {
    assert Strip(" 007 ") == "007" by {
      assert StripLeft(" 007 ") == "007 ";
      assert StripRight("007 ") == "007";
    }
    assert DecimalValue("007") == 7 by {
      assert "007"[..2] == "00" && "00"[..1] == "0";
    }
    assert Strip(" ") == [] by {
      assert StripLeft(" ") == [];
    }
  }

  /** Register's write: a validated row inserted under an unused positive id
      keeps the table invariant, so the storage layer's unique constraints
      never fire on it. */
  lemma InsertKeepsTable(emailOk: string -> bool, t: Table, f: Form, id: int)
    requires TableOk(t, emailOk)
    requires id >= 1 && id !in t
    requires Validate(emailOk, t, f, None).Success?
    ensures TableOk(t[id := Validate(emailOk, t, f, None).value], emailOk)
  {
    var s := Validate(emailOk, t, f, None).value;
    var t' := t[id := s];
    forall i, j | i in t' && j in t' && i != j
      ensures t'[i].rollNo != t'[j].rollNo && t'[i].email != t'[j].email
    {
      if i == id {
        assert !RollNoTaken(t, s.rollNo, None) && !EmailTaken(t, s.email, None);
        assert t[j].rollNo != s.rollNo && t[j].email != s.email;
      } else if j == id {
        assert !RollNoTaken(t, s.rollNo, None) && !EmailTaken(t, s.email, None);
        assert t[i].rollNo != s.rollNo && t[i].email != s.email;
      }
    }
  }

  /** Update's write: a row validated with its own id excluded, written over
      that id, keeps the table invariant. */
  lemma OverwriteKeepsTable(emailOk: string -> bool, t: Table, f: Form, id: int)
    requires TableOk(t, emailOk)
    requires id in t
    requires Validate(emailOk, t, f, Some(id)).Success?
    ensures TableOk(t[id := Validate(emailOk, t, f, Some(id)).value], emailOk)
  {
    var s := Validate(emailOk, t, f, Some(id)).value;
    var t' := t[id := s];
    forall i, j | i in t' && j in t' && i != j
      ensures t'[i].rollNo != t'[j].rollNo && t'[i].email != t'[j].email
    {
      if i == id {
        assert !RollNoTaken(t, s.rollNo, Some(id)) && !EmailTaken(t, s.email, Some(id));
        assert t[j].rollNo != s.rollNo && t[j].email != s.email;
      } else if j == id {
        assert !RollNoTaken(t, s.rollNo, Some(id)) && !EmailTaken(t, s.email, Some(id));
        assert t[i].rollNo != s.rollNo && t[i].email != s.email;
      }
    }
  }

  /** The update form as `update.html` is taken to pre-fill it from row `s`:
      each field's current value, the age as `str(age)`. The template is not
      part of this model; a browser's single-line text input drops line
      breaks, so a value holding one does not come back as it was stored. */
  function CurrentForm(s: Student): (f: Form)
    requires s.age >= 0
    ensures f.name == s.name && f.rollNo == s.rollNo && f.email == s.email
    ensures AllDigits(f.age) && DecimalValue(f.age) == s.age
  {
    DecimalRoundTrip(s.age);
    Form(s.name, s.rollNo, s.email, NatToDecimal(s.age))
  }

  /** The pre-filled form of a row with stripped text and a positive age
      reads back, after `strip` and the age rule, as that same row. */
  lemma CurrentFormReadsBack(s: Student)
    requires IsStripped(s.name) && IsStripped(s.rollNo) && IsStripped(s.email)
    requires s.age > 0 && |NatToDecimal(s.age)| <= MaxStrDigits
    ensures Stripped(CurrentForm(s)) == CurrentForm(s)
    ensures ParseAge(CurrentForm(s).age) == Success(s.age)
  {
    var f := CurrentForm(s);
    StripFixesStripped(s.name);
    StripFixesStripped(s.rollNo);
    StripFixesStripped(s.email);
    DecimalIsStripped(s.age);
    DecimalValuePositive(f.age);
  }

  /** The pre-filled form of a well-formed row passes the format checks and
      yields the row itself; so it is refused only by a uniqueness check. */
  lemma CurrentFormChecks(emailOk: string -> bool, t: Table, s: Student, exclude: Option<int>)
    requires RowOk(s, emailOk)
    ensures !RollNoTaken(t, s.rollNo, exclude) && !EmailTaken(t, s.email, exclude) ==>
      Validate(emailOk, t, CurrentForm(s), exclude) == Success(s)
    ensures RollNoTaken(t, s.rollNo, exclude) ==>
      Validate(emailOk, t, CurrentForm(s), exclude) == Failure(DuplicateRollNo)
  {
    CurrentFormReadsBack(s);
  }

  /** In a valid table no other row shares row `id`'s roll number or email. */
  lemma OwnValuesFree(emailOk: string -> bool, t: Table, id: int)
    requires TableOk(t, emailOk)
    requires id in t
    ensures !RollNoTaken(t, t[id].rollNo, Some(id)) && !EmailTaken(t, t[id].email, Some(id))
  {
    forall j | j in t && j != id
      ensures t[j].rollNo != t[id].rollNo && t[j].email != t[id].email
    {
    }
  }

  /** Re-submitting a row's current values to update that same row is
      accepted and rewrites the row to itself: its own roll number and email
      are not reported as duplicates. */
  lemma ResubmitOwnRowAccepted(emailOk: string -> bool, t: Table, id: int)
    requires TableOk(t, emailOk)
    requires id in t
    ensures Validate(emailOk, t, CurrentForm(t[id]), Some(id)) == Success(t[id])
  {
    OwnValuesFree(emailOk, t, id);
    CurrentFormChecks(emailOk, t, t[id], Some(id));
  }

  /** In a one-row table the update of that row is never refused as a
      duplicate: the only row that could hold the values is the one excluded. */
  lemma OnlyRowUpdateAccepted(emailOk: string -> bool, id: int, was: Student, s: Student)
    requires RowOk(s, emailOk)
    ensures Validate(emailOk, map[id := was], CurrentForm(s), Some(id)) == Success(s)
  {
    var t := map[id := was];
    assert !RollNoTaken(t, s.rollNo, Some(id)) && !EmailTaken(t, s.email, Some(id));
    CurrentFormChecks(emailOk, t, s, Some(id));
  }

  /** The same values submitted to register, which excludes no row, collide
      with the row that holds them: the uniqueness checks differ only by the
      excluded id. */
  lemma RegisterExistingRowRefused(emailOk: string -> bool, t: Table, id: int)
    requires TableOk(t, emailOk)
    requires id in t
    ensures Validate(emailOk, t, CurrentForm(t[id]), None) == Failure(DuplicateRollNo)
  {
    assert RollNoTaken(t, t[id].rollNo, None);
    CurrentFormChecks(emailOk, t, t[id], None);
  }
}
