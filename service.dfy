/** EmployeeService: the guarded operations on the employee table. Each
    operation checks its condition against the repository, then writes or
    fails with one of the failure kinds the exception handler translates. */
module Service {
  import opened Wrappers
  import opened DecimalText
  import opened ExceptionHandling
  import opened EmailValidation
  import opened Storage

  // Messages of the failures and of the delete confirmation.

  function NotFoundByIdMessage(id: int): string {
    "Employee not found with ID: " + IntToString(id)
  }

  function NotFoundByEmailMessage(email: string): string {
    "Employee not found with email: " + email
  }

  const DUPLICATE_EMAIL_MESSAGE: string := "L'employé avec cet email existe déjà"

  function DuplicateInBatchMessage(email: string): string {
    DUPLICATE_EMAIL_MESSAGE + ": " + email
  }

  /** Stands for the message of the persistence framework's error when a
      single-result query matches several rows (a RuntimeException). */
  const NON_UNIQUE_RESULT_MESSAGE: string := "query did not return a unique result"

  function DeletedMessage(id: int): string {
    "Employee with ID " + IntToString(id) + " has been deleted."
  }

  /** The not-found message ends with the id, and tells distinct ids apart. */
  lemma NotFoundByIdMessageNamesId(a: int, b: int)
    ensures NotFoundByIdMessage(a)[|NotFoundByIdMessage(a)| - |IntToString(a)|..] == IntToString(a)
    ensures NotFoundByIdMessage(a) == NotFoundByIdMessage(b) ==> a == b
  {
    var prefix := "Employee not found with ID: ";
    if NotFoundByIdMessage(a) == NotFoundByIdMessage(b) {
      assert IntToString(a) == NotFoundByIdMessage(a)[|prefix|..];
      assert IntToString(b) == NotFoundByIdMessage(b)[|prefix|..];
      IntToStringInjective(a, b);
    }
  }

  // The check addEmployees runs on each element before saving any.

  /** The check on one element: its email is well formed, then not already stored. */
  function CheckForBatch(rows: map<int, Employee>, e: Employee): Outcome<Failure> {
    match ValidateEmail(e.email)
    case Fail(f) => Fail(f)
    case Pass =>
      if EmailTaken(rows, e.email.value) then Fail(OtherRuntime(DuplicateInBatchMessage(e.email.value)))
      else Pass
  }

  /** The checks on a whole batch, in list order, stopping at the first failure. */
  function BatchCheck(rows: map<int, Employee>, es: seq<Employee>): Outcome<Failure>
    decreases |es|
  {
    if es == [] then Pass
    else match CheckForBatch(rows, es[0])
      case Fail(f) => Fail(f)
      case Pass => BatchCheck(rows, es[1..])
  }

  /** A batch passes exactly when every element passes. */
  lemma {:induction false} BatchCheckPassesExactly(rows: map<int, Employee>, es: seq<Employee>)
    ensures BatchCheck(rows, es).Pass? <==> forall i :: 0 <= i < |es| ==> CheckForBatch(rows, es[i]).Pass?
    decreases |es|
  {
    if es != [] {
      BatchCheckPassesExactly(rows, es[1..]);
      if CheckForBatch(rows, es[0]).Pass? && BatchCheck(rows, es).Pass? {
        forall i | 0 < i < |es| ensures CheckForBatch(rows, es[i]).Pass? {
          assert es[i] == es[1..][i - 1];
        }
      } else if CheckForBatch(rows, es[0]).Pass? {
        var i :| 0 <= i < |es[1..]| && CheckForBatch(rows, es[1..][i]).Fail?;
        assert es[1..][i] == es[i + 1];
      }
    }
  }

  /** A batch that fails fails with the failure of its first failing element. */
  lemma {:induction false} BatchCheckFirstOffender(rows: map<int, Employee>, es: seq<Employee>)
    ensures BatchCheck(rows, es).Fail? ==>
      exists i :: && 0 <= i < |es|
                  && CheckForBatch(rows, es[i]) == BatchCheck(rows, es)
                  && forall j :: 0 <= j < i ==> CheckForBatch(rows, es[j]).Pass?
    decreases |es|
  {
    if es != [] {
      if CheckForBatch(rows, es[0]).Fail? {
        assert CheckForBatch(rows, es[0]) == BatchCheck(rows, es);
      } else if BatchCheck(rows, es).Fail? {
        BatchCheckFirstOffender(rows, es[1..]);
        var i :| && 0 <= i < |es[1..]|
                 && CheckForBatch(rows, es[1..][i]) == BatchCheck(rows, es[1..])
                 && forall j :: 0 <= j < i ==> CheckForBatch(rows, es[1..][j]).Pass?;
        assert CheckForBatch(rows, es[i + 1]) == BatchCheck(rows, es);
        forall j | 0 < j < i + 1 ensures CheckForBatch(rows, es[j]).Pass? {
          assert es[j] == es[1..][j - 1];
        }
      }
    }
  }

  /** The checks on what is left of a batch, one element at a time: the
      first element's failure, or else the checks on the rest. */
  lemma BatchCheckSuffix(rows: map<int, Employee>, es: seq<Employee>, i: nat)
    requires i < |es|
    ensures BatchCheck(rows, es[i..]) ==
      if CheckForBatch(rows, es[i]).Fail? then CheckForBatch(rows, es[i]) else BatchCheck(rows, es[i + 1..])
  {
    assert es[i..][0] == es[i];
    assert es[i..][1..] == es[i + 1..];
  }

  /** Every failure of the batch checks is answered with 400 Bad Request. */
  lemma {:induction false} BatchFailuresAreBadRequest(rows: map<int, Employee>, es: seq<Employee>)
    ensures BatchCheck(rows, es).Fail? ==>
      && (BatchCheck(rows, es).error.InvalidEmail? || BatchCheck(rows, es).error.OtherRuntime?)
      && Handle(BatchCheck(rows, es).error).status == BAD_REQUEST
    decreases |es|
  {
    if es != [] && CheckForBatch(rows, es[0]).Pass? {
      BatchFailuresAreBadRequest(rows, es[1..]);
    }
  }

  /** Two records with the same new email in one batch both pass the
      checks, and both are saved, so a later lookup by that email finds
      several records. */
  lemma BatchDuplicatesUndetected(t: Table, e: Employee)
    requires WellFormed(t) && e.id.None? && CheckForBatch(t.rows, e).Pass?
    ensures BatchCheck(t.rows, [e, e]).Pass?
    ensures var rows' := SaveRows(t, [e, e]).0.rows;
      && t.nextId in rows' && t.nextId + 1 in rows'
      && rows'[t.nextId].email == rows'[t.nextId + 1].email == e.email
      && e.email.Some? && EmailShared(rows', e.email.value)
  {
    assert [e][1..] == [];
    assert BatchCheck(t.rows, [e]).Pass?;
    assert [e, e][1..] == [e];
    SaveRowsAppends(t, [e, e]);
    var rows' := SaveRows(t, [e, e]).0.rows;
    assert t.nextId in rows' && t.nextId + 1 in rows';
  }

  /** The service, over the repository it was given. */
  class EmployeeService {
    const repo: EmployeeRepository

    constructor (repo: EmployeeRepository)
      requires repo.Valid()
      ensures this.repo == repo && Valid()
    {
      this.repo := repo;
    }

    ghost predicate Valid()
      reads repo
    {
      repo.Valid()
    }

    /** getAllEmployees: every stored record, once each. */
    method GetAllEmployees() returns (r: seq<Employee>)
      requires Valid()
      ensures ListsAll(r, repo.rows)
    {
      r := repo.FindAll();
    }

    /** getEmployeeById: the stored record, or NotFound naming the id. */
    method GetEmployeeById(id: int) returns (r: Result<Employee, Failure>)
      ensures id in repo.rows ==> r == Ok(repo.rows[id])
      ensures id !in repo.rows ==> r == Err(NotFound(NotFoundByIdMessage(id)))
    {
      var found := repo.FindById(id);
      match found
      case Some(e) => r := Ok(e);
      case None => r := Err(NotFound(NotFoundByIdMessage(id)));
    }

    /** getEmployeeByEmail: a stored record with that email, or NotFound naming the email. */
    method GetEmployeeByEmail(email: string) returns (r: Result<Employee, Failure>)
      ensures EmailTaken(repo.rows, email) && !EmailShared(repo.rows, email) ==>
        r.Ok? && r.value.email == Some(email) && exists k :: k in repo.rows && repo.rows[k] == r.value
      ensures EmailShared(repo.rows, email) ==> r == Err(OtherRuntime(NON_UNIQUE_RESULT_MESSAGE))
      ensures !EmailTaken(repo.rows, email) ==> r == Err(NotFound(NotFoundByEmailMessage(email)))
    {
      var found := repo.FindByEmail(email);
      match found
      case OneMatch(e) => r := Ok(e);
      case ManyMatches => r := Err(OtherRuntime(NON_UNIQUE_RESULT_MESSAGE));
      case NoMatch => r := Err(NotFound(NotFoundByEmailMessage(email)));
    }

    /** searchEmployeesByFirstName: the stored records whose first name contains the query. */
    method SearchEmployeesByFirstName(query: string) returns (r: seq<Employee>)
      requires Valid()
      ensures forall i :: 0 <= i < |r| ==> r[i] in repo.rows.Values && ContainsText(r[i].firstName, query)
      ensures forall k :: k in repo.rows && ContainsText(repo.rows[k].firstName, query) ==> repo.rows[k] in r
    {
      r := repo.FindByFirstNameContaining(query);
    }

    /** countEmployees: the number of stored records. */
    method CountEmployees() returns (n: nat)
      ensures n == |repo.rows|
    {
      n := repo.Count();
    }

    /** addEmployee: the email format is checked first, then that no stored
        record has the email; only then is the record saved. */
    method AddEmployee(e: Employee) returns (r: Result<Employee, Failure>)
      requires Valid()
      modifies repo
      ensures Valid()
      ensures !(e.email.Some? && MatchesEmailPattern(e.email.value)) ==>
        r == Err(InvalidEmail(InvalidEmailMessage(e.email))) && unchanged(repo)
      ensures e.email.Some? && MatchesEmailPattern(e.email.value) && EmailTaken(old(repo.rows), e.email.value) ==>
        r == Err(OtherRuntime(DUPLICATE_EMAIL_MESSAGE)) && unchanged(repo)
      ensures e.email.Some? && MatchesEmailPattern(e.email.value) && !EmailTaken(old(repo.rows), e.email.value) ==>
        r.Ok? && (repo.Snapshot(), r.value) == SaveRow(old(repo.Snapshot()), e)
      ensures r.Ok? ==> r.value.id.Some? && repo.rows[r.value.id.value] == r.value
      ensures r.Ok? && e.id.None? ==>
        && r.value == WithId(e, old(repo.nextId))
        && old(repo.nextId) !in old(repo.rows)
        && repo.rows == old(repo.rows)[old(repo.nextId) := r.value]
        && |repo.rows| == |old(repo.rows)| + 1
    {
      var check := ValidateEmail(e.email);
      if check.Fail? {
        return Err(check.error);
      }
      if repo.ExistsByEmail(e.email.value) {
        return Err(OtherRuntime(DUPLICATE_EMAIL_MESSAGE));
      }
      var saved := repo.Save(e);
      r := Ok(saved);
    }

    /** updateEmployee: on a stored id, the record there is replaced by the
        incoming one with its id forced to the path id; the email is not checked. */
    method UpdateEmployee(id: int, e: Employee) returns (r: Result<Employee, Failure>)
      requires Valid()
      modifies repo
      ensures Valid()
      ensures id !in old(repo.rows) ==> r == Err(NotFound(NotFoundByIdMessage(id))) && unchanged(repo)
      ensures id in old(repo.rows) ==>
        && r == Ok(WithId(e, id))
        && repo.rows == old(repo.rows)[id := WithId(e, id)]
        && repo.nextId == old(repo.nextId)
    {
      if !repo.ExistsById(id) {
        return Err(NotFound(NotFoundByIdMessage(id)));
      }
      var withId := WithId(e, id);
      var saved := repo.Save(withId);
      r := Ok(saved);
    }

    /** deleteEmployee: on a stored id, removes exactly that record and confirms. */
    method DeleteEmployee(id: int) returns (r: Result<string, Failure>)
      requires Valid()
      modifies repo
      ensures Valid()
      ensures id in old(repo.rows) ==>
        && r == Ok(DeletedMessage(id))
        && repo.rows == old(repo.rows) - {id}
        && |repo.rows| == |old(repo.rows)| - 1
        && repo.nextId == old(repo.nextId)
      ensures id !in old(repo.rows) ==> r == Err(NotFound(NotFoundByIdMessage(id))) && unchanged(repo)
    {
      if repo.ExistsById(id) {
        repo.DeleteById(id);
        r := Ok(DeletedMessage(id));
      } else {
        r := Err(NotFound(NotFoundByIdMessage(id)));
      }
    }

    /** addEmployees: every element is checked before any is saved; the
        first failing element's failure is raised and nothing is saved,
        otherwise the whole batch is saved in order. */
    method AddEmployees(es: seq<Employee>) returns (r: Result<seq<Employee>, Failure>)
      requires Valid()
      modifies repo
      ensures Valid()
      ensures BatchCheck(old(repo.rows), es).Fail? ==>
        r == Err(BatchCheck(old(repo.rows), es).error) && unchanged(repo)
      ensures BatchCheck(old(repo.rows), es).Pass? ==>
        r.Ok? && (repo.Snapshot(), r.value) == SaveRows(old(repo.Snapshot()), es)
    {
      var i := 0;
      while i < |es|
        invariant 0 <= i <= |es|
        invariant unchanged(repo)
        invariant BatchCheck(repo.rows, es) == BatchCheck(repo.rows, es[i..])
      {
        var e := es[i];
        BatchCheckSuffix(repo.rows, es, i);
        var check := ValidateEmail(e.email);
        if check.Fail? {
          return Err(check.error);
        }
        if repo.ExistsByEmail(e.email.value) {
          return Err(OtherRuntime(DuplicateInBatchMessage(e.email.value)));
        }
        i := i + 1;
      }
      var saved := repo.SaveAll(es);
      r := Ok(saved);
    }
  }
}
