/** The zod `formSchema` of the mock-interview form and the messages the form shows. */
module FormSchema {
  import opened Wrappers

  datatype Field = Position | Description | Experience | TechStack

  /** A string check of the schema: `.min(n, message)` or `.max(n, message)` on the length. */
  datatype LengthCheck = MinLength(n: nat, message: string) | MaxLength(n: nat, message: string)

  /** A validation issue: the field it is about and its message. */
  datatype Issue = Issue(path: Field, message: string)

  /** The values the resolver validates; `experience` is the number after coercion. */
  datatype FormData = FormData(position: string, description: string, experience: real, techStack: string)

  const PositionMin := MinLength(1, "position is required")
  const PositionMax := MaxLength(100, "position must be 100 character or less")
  const DescriptionMin := MinLength(10, "description is required")
  const TechStackMin := MinLength(1, "Techstack must be atleast a character")
  const ExperienceMinimum: real := 0.0
  const ExperienceMessage := "Experience can not be negative"

  predicate Passes(c: LengthCheck, value: string) {
    match c
    case MinLength(n, _) => |value| >= n
    case MaxLength(n, _) => |value| <= n
  }

  /** The issue one check reports: none when the value passes it. */
  function CheckIssues(field: Field, value: string, c: LengthCheck): (r: seq<Issue>)
    ensures r == [] <==> Passes(c, value)
    ensures r != [] ==> r == [Issue(field, c.message)]
  {
    if Passes(c, value) then [] else [Issue(field, c.message)]
  }

  /** `.min(0, ...)` on the coerced number: inclusive. */
  function NumberIssues(field: Field, value: real): (r: seq<Issue>)
    ensures r == [] <==> value >= ExperienceMinimum
    ensures r != [] ==> r == [Issue(field, ExperienceMessage)]
  {
    if value >= ExperienceMinimum then [] else [Issue(field, ExperienceMessage)]
  }

  /** A minimum and a maximum that leave room between them never both fail, so a string
      schema with such a pair reports at most one of the two. */
  lemma LengthChecksNeverBothFail(field: Field, value: string, lo: LengthCheck, hi: LengthCheck)
    requires lo.MinLength? && hi.MaxLength? && lo.n <= hi.n
    ensures CheckIssues(field, value, lo) == [] || CheckIssues(field, value, hi) == []
  {}

  /** A length check sees only the number of characters: values of the same length get
      the same issues. */
  lemma CheckSeesOnlyLength(field: Field, v1: string, v2: string, c: LengthCheck)
    requires |v1| == |v2|
    ensures CheckIssues(field, v1, c) == CheckIssues(field, v2, c)
  {}

  /** The experience bound is inclusive and one-sided: 0 passes, and raising a value that
      passes never makes it fail. */
  lemma NumberIssuesMonotone(field: Field, v1: real, v2: real)
    requires v1 <= v2
    ensures NumberIssues(field, ExperienceMinimum) == []
    ensures NumberIssues(field, v1) == [] ==> NumberIssues(field, v2) == []
  {}

  /** The issues `formSchema` reports for the form's values. A string schema runs every
      one of its checks and reports each one that fails; the object reports its fields
      in the order their keys are declared. */
  function SchemaIssues(d: FormData): (r: seq<Issue>)
    ensures InKeyOrder(r)
  {
    var p1 := CheckIssues(Position, d.position, PositionMin);
    var p2 := CheckIssues(Position, d.position, PositionMax);
    var p3 := CheckIssues(Description, d.description, DescriptionMin);
    var p4 := NumberIssues(Experience, d.experience);
    var p5 := CheckIssues(TechStack, d.techStack, TechStackMin);
    assert InKeyOrder(p1 + p2) && RanksBelow(p1 + p2, 1) by {
      LengthChecksNeverBothFail(Position, d.position, PositionMin, PositionMax);
    }
    AppendAbove(p1 + p2, p3, 1);
    AppendAbove(p1 + p2 + p3, p4, 2);
    AppendAbove(p1 + p2 + p3 + p4, p5, 3);
    p1 + p2 + p3 + p4 + p5
  }

  /** At most one issue per field, and fields in the order their keys are declared. */
  predicate InKeyOrder(r: seq<Issue>) {
    forall i, j :: 0 <= i < j < |r| ==> KeyRank(r[i].path) < KeyRank(r[j].path)
  }

  predicate RanksBelow(r: seq<Issue>, n: nat) {
    forall i :: 0 <= i < |r| ==> KeyRank(r[i].path) < n
  }

  lemma AppendAbove(x: seq<Issue>, y: seq<Issue>, n: nat)
    requires InKeyOrder(x) && RanksBelow(x, n)
    requires |y| <= 1 && forall i :: 0 <= i < |y| ==> KeyRank(y[i].path) == n
    ensures InKeyOrder(x + y) && RanksBelow(x + y, n + 1)
  {
    assert forall i :: 0 <= i < |x| ==> (x + y)[i] == x[i];
  }

  /** Where a key stands in the schema's declaration. */
  function KeyRank(f: Field): nat {
    match f
    case Position => 0
    case Description => 1
    case Experience => 2
    case TechStack => 3
  }

  /** The resolver's verdict: valid exactly when no field has a message to show. */
  predicate IsValid(d: FormData)
    ensures IsValid(d) <==> forall f :: FieldMessage(d, f).None?
  {
    var issues := SchemaIssues(d);
    assert issues != [] ==> FieldMessage(d, issues[0].path).Some?;
    issues == []
  }

  /** The schema's issues, spelled out: one per violated bound, in declaration order. */
  lemma SchemaIssuesSpelledOut(d: FormData)
    ensures SchemaIssues(d) ==
      (if |d.position| < 1 then [Issue(Position, "position is required")] else []) +
      (if |d.position| > 100 then [Issue(Position, "position must be 100 character or less")] else []) +
      (if |d.description| < 10 then [Issue(Description, "description is required")] else []) +
      (if d.experience < 0.0 then [Issue(Experience, "Experience can not be negative")] else []) +
      (if |d.techStack| < 1 then [Issue(TechStack, "Techstack must be atleast a character")] else [])
  {}

  /** The form is valid exactly when all four bounds hold. */
  lemma ValidIffBounds(d: FormData)
    ensures IsValid(d) <==>
      && 1 <= |d.position| <= 100
      && |d.description| >= 10
      && d.experience >= 0.0
      && |d.techStack| >= 1
  {
    SchemaIssuesSpelledOut(d);
  }

  /** Each bound has its own message, reported exactly when that bound is violated. */
  lemma IssueIffViolated(d: FormData)
    ensures Issue(Position, "position is required") in SchemaIssues(d) <==> |d.position| < 1
    ensures Issue(Position, "position must be 100 character or less") in SchemaIssues(d) <==> |d.position| > 100
    ensures Issue(Description, "description is required") in SchemaIssues(d) <==> |d.description| < 10
    ensures Issue(Experience, "Experience can not be negative") in SchemaIssues(d) <==> d.experience < 0.0
    ensures Issue(TechStack, "Techstack must be atleast a character") in SchemaIssues(d) <==> |d.techStack| < 1
  {
    var required, tooLong := Issue(Position, PositionMin.message), Issue(Position, PositionMax.message);
    assert required != tooLong by {
      assert |required.message| != |tooLong.message|;
    }
    InSchemaIssues(d, required);
    InSchemaIssues(d, tooLong);
    InSchemaIssues(d, Issue(Description, DescriptionMin.message));
    InSchemaIssues(d, Issue(Experience, ExperienceMessage));
    InSchemaIssues(d, Issue(TechStack, TechStackMin.message));
  }

  /** An issue is reported exactly when one of the five checks reports it. */
  lemma InSchemaIssues(d: FormData, x: Issue)
    ensures x in SchemaIssues(d) <==>
      || (x == Issue(Position, PositionMin.message) && !Passes(PositionMin, d.position))
      || (x == Issue(Position, PositionMax.message) && !Passes(PositionMax, d.position))
      || (x == Issue(Description, DescriptionMin.message) && !Passes(DescriptionMin, d.description))
      || (x == Issue(Experience, ExperienceMessage) && d.experience < ExperienceMinimum)
      || (x == Issue(TechStack, TechStackMin.message) && !Passes(TechStackMin, d.techStack))
  {
    var p1 := CheckIssues(Position, d.position, PositionMin);
    var p2 := CheckIssues(Position, d.position, PositionMax);
    var p3 := CheckIssues(Description, d.description, DescriptionMin);
    var p4 := NumberIssues(Experience, d.experience);
    var p5 := CheckIssues(TechStack, d.techStack, TechStackMin);
    assert SchemaIssues(d) == p1 + p2 + p3 + p4 + p5;
  }

  /** Where the first issue about `f` stands, if there is one. */
  function FirstIssueOf(issues: seq<Issue>, f: Field): (r: Option<nat>)
    ensures r.None? <==> forall i :: 0 <= i < |issues| ==> issues[i].path != f
    ensures r.Some? ==> r.value < |issues| && issues[r.value].path == f
    ensures r.Some? ==> forall j :: 0 <= j < r.value ==> issues[j].path != f
  {
    if issues == [] then None
    else if issues[0].path == f then Some(0)
    else match FirstIssueOf(issues[1..], f)
      case Some(i) => Some(i + 1)
      case None => None
  }

  /** The message a field's FormMessage shows: the resolver keeps the first issue
      reported for each field. */
  function FieldMessage(d: FormData, f: Field): (r: Option<string>)
    ensures r.Some? ==> Issue(f, r.value) in SchemaIssues(d)
    ensures r.None? <==> forall i :: 0 <= i < |SchemaIssues(d)| ==> SchemaIssues(d)[i].path != f
  {
    var issues := SchemaIssues(d);
    match FirstIssueOf(issues, f)
    case Some(i) => Some(issues[i].message)
    case None => None
  }

  /** The position field: empty shows "position is required", longer than 100
      characters shows "position must be 100 character or less", otherwise nothing. */
  lemma PositionMessage(d: FormData)
    ensures |d.position| == 0 ==> FieldMessage(d, Position) == Some("position is required")
    ensures |d.position| > 100 ==> FieldMessage(d, Position) == Some("position must be 100 character or less")
    ensures 1 <= |d.position| <= 100 ==> FieldMessage(d, Position).None?
  {
    SchemaIssuesSpelledOut(d);
  }

  /** Issues about other fields in front do not change which issue comes first. */
  lemma {:induction false} FirstIssueAfter(pre: seq<Issue>, rest: seq<Issue>, f: Field)
    requires forall j :: 0 <= j < |pre| ==> pre[j].path != f
    ensures FirstIssueOf(pre + rest, f) ==
      match FirstIssueOf(rest, f) case Some(i) => Some(|pre| + i) case None => None
  {
    if pre != [] {
      assert (pre + rest)[1..] == pre[1..] + rest;
      FirstIssueAfter(pre[1..], rest, f);
    } else {
      assert pre + rest == rest;
    }
  }

  /** When the issues about `f` are at most the one in `e`, that one is the message. */
  lemma OnlyIssueFor(pre: seq<Issue>, e: seq<Issue>, post: seq<Issue>, f: Field)
    requires forall j :: 0 <= j < |pre| ==> pre[j].path != f
    requires forall j :: 0 <= j < |post| ==> post[j].path != f
    requires e == [] || (|e| == 1 && e[0].path == f)
    ensures FirstIssueOf(pre + e + post, f) == if e == [] then None else Some(|pre|)
  {
    var rest := e + post;
    assert pre + e + post == pre + rest;
    assert FirstIssueOf(rest, f) == if e == [] then None else Some(0) by {
      if e == [] {
        assert rest == post;
      } else {
        assert rest[0] == e[0];
      }
    }
    FirstIssueAfter(pre, rest, f);
  }

  /** The description field shows "description is required" exactly when it is shorter
      than 10 characters. */
  lemma DescriptionFieldMessage(d: FormData)
    ensures |d.description| < 10 ==> FieldMessage(d, Description) == Some("description is required")
    ensures |d.description| >= 10 ==> FieldMessage(d, Description).None?
  {
    var pre := CheckIssues(Position, d.position, PositionMin) + CheckIssues(Position, d.position, PositionMax);
    var e := CheckIssues(Description, d.description, DescriptionMin);
    var post := NumberIssues(Experience, d.experience) + CheckIssues(TechStack, d.techStack, TechStackMin);
    var issues := SchemaIssues(d);
    assert issues == pre + e + post;
    OnlyIssueFor(pre, e, post, Description);
    if e != [] {
      assert issues[|pre|] == e[0];
    }
  }

  /** The experience field shows "Experience can not be negative" exactly for a negative
      number. */
  lemma ExperienceFieldMessage(d: FormData)
    ensures d.experience < 0.0 ==> FieldMessage(d, Experience) == Some("Experience can not be negative")
    ensures d.experience >= 0.0 ==> FieldMessage(d, Experience).None?
  {
    var pre :=
      CheckIssues(Position, d.position, PositionMin)
      + CheckIssues(Position, d.position, PositionMax)
      + CheckIssues(Description, d.description, DescriptionMin);
    var e := NumberIssues(Experience, d.experience);
    var post := CheckIssues(TechStack, d.techStack, TechStackMin);
    var issues := SchemaIssues(d);
    assert issues == pre + e + post;
    OnlyIssueFor(pre, e, post, Experience);
    if e != [] {
      assert issues[|pre|] == e[0];
    }
  }

  /** The tech-stack field shows "Techstack must be atleast a character" exactly when it
      is empty. */
  lemma TechStackFieldMessage(d: FormData)
    ensures |d.techStack| == 0 ==> FieldMessage(d, TechStack) == Some("Techstack must be atleast a character")
    ensures |d.techStack| >= 1 ==> FieldMessage(d, TechStack).None?
  {
    var pre :=
      CheckIssues(Position, d.position, PositionMin)
      + CheckIssues(Position, d.position, PositionMax)
      + CheckIssues(Description, d.description, DescriptionMin)
      + NumberIssues(Experience, d.experience);
    var e := CheckIssues(TechStack, d.techStack, TechStackMin);
    var issues := SchemaIssues(d);
    assert issues == pre + e + [];
    OnlyIssueFor(pre, e, [], TechStack);
    if e != [] {
      assert issues[|pre|] == e[0];
    }
  }
}
