/** The employee store as the query pipeline sees it: the repository's count
    queries and its look-up by document, each a filter over the sequence of
    stored employees. */
module Employees {
  import opened Wrappers
  import opened Text

  datatype EmployeeStatus = Active | Inactive | Vacation

  datatype Department = Department(name: string)

  /** The fields of an employee record that the queries read; `department`
      is the optional navigation property. */
  datatype Employee = Employee(
    document: string,
    position: string,
    status: EmployeeStatus,
    department: Option<Department>)

  /** How many employees satisfy `p`. */
  function CountWhere(es: seq<Employee>, p: Employee -> bool): (n: nat)
    ensures n <= |es|
    ensures n == 0 <==> forall i | 0 <= i < |es| :: !p(es[i])
    ensures n == |es| <==> forall i | 0 <= i < |es| :: p(es[i])
  {
    if es == [] then 0
    else
      var rest := CountWhere(es[1..], p);
      assert forall i | 1 <= i < |es| :: es[i] == es[1..][i - 1];
      (if p(es[0]) then 1 else 0) + rest
  }

  lemma {:induction false} CountWhereAppend(a: seq<Employee>, b: seq<Employee>, p: Employee -> bool)
    ensures CountWhere(a + b, p) == CountWhere(a, p) + CountWhere(b, p)
  {
    if a == [] {
      assert a + b == b;
    } else {
      assert (a + b)[0] == a[0];
      assert (a + b)[1..] == a[1..] + b;
      CountWhereAppend(a[1..], b, p);
    }
  }

  /** A filter that lets more employees through counts at least as many. */
  lemma {:induction false} CountWhereMonotonic(es: seq<Employee>, p: Employee -> bool, q: Employee -> bool)
    requires forall i | 0 <= i < |es| :: p(es[i]) ==> q(es[i])
    ensures CountWhere(es, p) <= CountWhere(es, q)
  {
    if es != [] {
      assert forall i | 0 <= i < |es[1..]| :: es[1..][i] == es[i + 1];
      CountWhereMonotonic(es[1..], p, q);
    }
  }

  /** Two filters that agree on every stored employee count the same. */
  lemma CountWhereAgree(es: seq<Employee>, p: Employee -> bool, q: Employee -> bool)
    requires forall i | 0 <= i < |es| :: p(es[i]) == q(es[i])
    ensures CountWhere(es, p) == CountWhere(es, q)
  {
    CountWhereMonotonic(es, p, q);
    CountWhereMonotonic(es, q, p);
  }

  predicate HasDepartment(e: Employee) {
    e.department.Some?
  }

  /* The filters of the count queries. */

  function HasStatus(s: EmployeeStatus): Employee -> bool {
    (e: Employee) => e.status == s
  }

  /** The department filter, given the lower-cased name. */
  function DepartmentNamed(lower: string): Employee -> bool {
    (e: Employee) => e.department.Some? && Lower(e.department.value.name) == lower
  }

  /** The position filter, given the lower-cased text. */
  function PositionContains(lower: string): Employee -> bool {
    (e: Employee) => Contains(Lower(e.position), lower)
  }

  /** `CountAsync`: every stored employee; no status count exceeds it. */
  function Count(es: seq<Employee>): (n: nat)
    ensures forall s :: CountByStatus(es, s) <= n
  {
    |es|
  }

  /** `CountByStatusAsync`: the employees whose status is exactly `s`. */
  function CountByStatus(es: seq<Employee>, s: EmployeeStatus): (n: nat)
    ensures n <= |es|
    ensures n == 0 <==> forall i | 0 <= i < |es| :: es[i].status != s
  {
    CountWhere(es, HasStatus(s))
  }

  /** `CountByDepartmentNameAsync`: the employees whose department name
      equals `name` ignoring case; an employee without a department is
      never counted. */
  function CountByDepartmentName(es: seq<Employee>, name: string): (n: nat)
    ensures n <= CountWhere(es, HasDepartment)
    ensures n == 0 <==> forall i | 0 <= i < |es| ::
      es[i].department.None? || Lower(es[i].department.value.name) != Lower(name)
  {
    CountWhereMonotonic(es, DepartmentNamed(Lower(name)), HasDepartment);
    CountWhere(es, DepartmentNamed(Lower(name)))
  }

  /** `CountByPositionAsync`: the employees whose lower-cased position
      contains the lower-cased argument; the empty text matches everyone. */
  function CountByPosition(es: seq<Employee>, text: string): (n: nat)
    ensures n <= |es|
    ensures n == 0 <==> forall i | 0 <= i < |es| :: !Contains(Lower(es[i].position), Lower(text))
    ensures text == [] ==> n == |es|
  {
    forall e: Employee | text == [] ensures PositionContains(Lower(text))(e) {
      ContainsEmpty(Lower(e.position));
    }
    CountWhere(es, PositionContains(Lower(text)))
  }

  /** `GetByDocumentAsync`: an employee whose document equals `document`
      exactly, or none when no employee has it. */
  function GetByDocument(es: seq<Employee>, document: string): (r: Option<Employee>)
    ensures r.Some? ==> r.value in es && r.value.document == document
    ensures r.None? <==> forall i | 0 <= i < |es| :: es[i].document != document
  {
    if es == [] then None
    else if es[0].document == document then Some(es[0])
    else
      var r := GetByDocument(es[1..], document);
      assert forall i | 1 <= i < |es| :: es[i] == es[1..][i - 1];
      r
  }

  /** Every employee has exactly one of the three statuses, so the three
      status counts add up to the total. */
  lemma {:induction false} StatusCountsPartition(es: seq<Employee>)
    ensures CountByStatus(es, Active) + CountByStatus(es, Inactive) + CountByStatus(es, Vacation) == Count(es)
  {
    if es != [] {
      StatusCountsPartition(es[1..]);
    }
  }

  /** Adding an employee without a department changes no department count. */
  lemma UnassignedNeverCounted(es: seq<Employee>, e: Employee, name: string)
    requires e.department.None?
    ensures CountByDepartmentName(es + [e], name) == CountByDepartmentName(es, name)
  {
    CountWhereAppend(es, [e], DepartmentNamed(Lower(name)));
  }

  /** Department names are compared without regard to case. */
  lemma DepartmentCountIgnoresCase(es: seq<Employee>, a: string, b: string)
    requires Lower(a) == Lower(b)
    ensures CountByDepartmentName(es, a) == CountByDepartmentName(es, b)
  {
  }

  /** Positions are compared without regard to case. */
  lemma PositionCountIgnoresCase(es: seq<Employee>, a: string, b: string)
    requires Lower(a) == Lower(b)
    ensures CountByPosition(es, a) == CountByPosition(es, b)
  {
  }

  /** A longer position filter (one that contains a shorter one) counts no
      more employees than the shorter one. */
  lemma PositionCountNarrows(es: seq<Employee>, short: string, long: string)
    requires Contains(Lower(long), Lower(short))
    ensures CountByPosition(es, long) <= CountByPosition(es, short)
  {
    forall i | 0 <= i < |es| && Contains(Lower(es[i].position), Lower(long))
      ensures Contains(Lower(es[i].position), Lower(short))
    {
      ContainsTransitive(Lower(es[i].position), Lower(long), Lower(short));
    }
    CountWhereMonotonic(es, PositionContains(Lower(long)), PositionContains(Lower(short)));
  }
}
