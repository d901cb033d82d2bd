# Employee service and exception handler, modelled in Dafny

The system is a small Spring backend that manages an employee table. Its
core is two classes:

- `EmployeeService` guards each write to the table. `addEmployee` checks the
  email format first, then that no stored record already has that email.
  `updateEmployee` and `deleteEmployee` first check that the id is stored.
  `addEmployees` checks every element of a batch before saving any of them.
  The lookups fail with "not found" when nothing matches.
- `GlobalExceptionHandler` turns each failure into an HTTP error response,
  made of a status code and a body holding a message and that status.

The model has six modules:

- `Wrappers` (`wrappers.dfy`): `Option`, `Result` and `Outcome`. They stand
  for Java's nullable references, for calls that return or throw, and for
  void calls that may throw.
- `DecimalText` (`decimal_text.dfy`): Java's decimal rendering of an
  integer id inside a message. It is proved injective by a round trip
  through a digit reader.
- `ExceptionHandling` (`exception_handling.dfy`): the four failure kinds
  and the four handler methods.
  - `Handle` picks the handler with one exhaustive `match`.
  - The framework's "nearest declared exception class wins" rule is also
    stated on its own, over an open class hierarchy. Classes without a
    handler of their own extend any other class, at any depth.
  - `HandleIsMostSpecificDispatch` proves that, for every class, the rule
    picks exactly one handler. That handler answers what `Handle` answers
    for the failure kind the class falls under.
- `EmailValidation` (`email_validation.dfy`): the email check.
  - `MatchesEmailPattern` gives the meaning of the regular expression
    `^[A-Za-z0-9._%+-]+@[A-Za-z0-9.-]+\.[A-Za-z]{2,6}$`: some split of the
    whole string into local part, `@`, domain, `.` and TLD fits it.
  - `IsValidEmail` computes the check from the position of the `@` and of
    the last `.`.
  - `EmailCharacterisation` proves the two agree on every string.
- `Storage` (`storage.dfy`): the repository the service depends on.
  - The class `EmployeeRepository` holds the table as a `map` from id to
    record, plus the next id the identity generator will hand out.
  - `save` and `saveAll` are specified by the functions `SaveRow` and
    `SaveRows` on a `Table` value, and the class's methods are proved
    against them.
  - Lookups scan the map.
- `Service` (`service.dfy`): the class `EmployeeService` over a repository.
  Each method's postcondition gives its result and the new table in terms
  of the old one, for every branch: the error cases, "nothing changes" on
  failure, and "nothing else changes" on success.

Four behaviours of the code that one might not expect are kept as they are:

- A duplicate email raises a plain `RuntimeException`. It is therefore an
  `OtherRuntime` failure, not a failure kind of its own, and is answered
  with 400.
- `addEmployee` passes the incoming record to `save` as it is, without
  clearing its id. A request body whose id is already stored therefore
  replaces that row. A body whose id is not stored is inserted under that
  id in the model only; where the persistence layer would put it is listed
  under "Left out". The "one new record under a fresh id" property is proved
  for bodies without an id.
- `updateEmployee` does not validate the email.
- A batch is checked only against records already stored, not against
  other elements of the same batch. `BatchDuplicatesUndetected` shows this.
  Once two records share an email, `getEmployeeByEmail` for it fails: the
  single-result query raises a RuntimeException, answered with 400.

## Model

| member | source | states |
|---|---|---|
| `EmailValidation.EmailCharacterisation` | src/main/java/com/employee/web/service/EmployeeService.java:105-107 | The computed check accepts a string exactly when the regular expression matches the whole string. The computed check is: exactly one `@`; a non-empty local part before it; only `[A-Za-z0-9.-]` after it; a last `.` with at least one character after the `@` before it, and 2 to 6 ASCII letters after it. |
| `EmailValidation.ValidateEmail` | src/main/java/com/employee/web/service/EmployeeService.java:105-110 | Passes exactly on a non-null email that matches the pattern. Otherwise fails with InvalidEmail carrying "L'adresse email <email> n'est pas valide.", with `null` printed for a null email. |
| `EmailValidation.MatchIsValidEmail` | src/main/java/com/employee/web/service/EmployeeService.java:106-107 | Any split that fits the pattern puts its `@` at the first (and only) `@` and its `.` at the last `.`, so the split is unique, and the computed check accepts the string. |
| `EmailValidation.ValidEmailMatches` | src/main/java/com/employee/web/service/EmployeeService.java:106-107 | A string the computed check accepts fits the pattern, split at its `@` and its last `.`. |
| `DecimalText.NatToStringRoundTrip` | src/main/java/com/employee/web/service/EmployeeService.java:28 | Reading back the decimal digits of an id gives the id. |
| `DecimalText.IntToStringInjective` | src/main/java/com/employee/web/service/EmployeeService.java:28 | Distinct ids are rendered as distinct strings, negative ones included. |
| `Service.NotFoundByIdMessageNamesId` | src/main/java/com/employee/web/service/EmployeeService.java:28 | The not-found message ends with the id, and two ids give the same message only if they are equal. |
| `ExceptionHandling.Handle` | src/main/java/com/employee/web/exception/GlobalExceptionHandler.java:11-48 | The status is 404 exactly for NotFound, 400 exactly for InvalidEmail and other runtime failures, and 500 exactly for other exceptions. The body's status always equals the response status. The body's message is the failure's own message, except for other exceptions, which get the fixed generic text. |
| `ExceptionHandling.GeneralHandlerHidesMessage` | src/main/java/com/employee/web/exception/GlobalExceptionHandler.java:41-48 | The 500 response does not depend on the exception's message, and its message is the fixed generic text. |
| `ExceptionHandling.ClassOf` | src/main/java/com/employee/web/exception/GlobalExceptionHandler.java:11-41 | Each failure kind is thrown by a class that is classified back as that same failure kind. |
| `ExceptionHandling.NearestDeclaredIsNearest` | src/main/java/com/employee/web/exception/GlobalExceptionHandler.java:11-41 | The nearest ancestor of a class that has a handler method is an applicable handler, and no applicable handler is nearer. |
| `ExceptionHandling.NearestDeclaredClassifies` | src/main/java/com/employee/web/exception/GlobalExceptionHandler.java:11-48 | The handler method of that nearest ancestor answers what `Handle` answers for the class's failure kind. |
| `ExceptionHandling.HandleIsMostSpecificDispatch` | src/main/java/com/employee/web/exception/GlobalExceptionHandler.java:11-48 | For every exception class, including classes that extend a handled class at any depth, exactly one applicable handler is nearest in the hierarchy. `Handle` answers what that handler answers, so the specific handlers win over the RuntimeException and Exception handlers. |
| `ExceptionHandling.RuntimeSubclassDispatch` | src/main/java/com/employee/web/exception/GlobalExceptionHandler.java:31-48 | A class two steps below RuntimeException is answered by the RuntimeException handler, two steps up, with 400, and not by the Exception handler. |
| `Storage.SaveRow` | src/main/java/com/employee/web/service/EmployeeService.java:37 | The saved record has an id. A record with an id keeps it, and a record without one gets the generator's next id. The table changes only at the saved id, and the generator ends up past that id and never goes back. |
| `Storage.SaveRowWellFormed` | src/main/java/com/employee/web/service/EmployeeService.java:37 | Saving keeps every row under its own id. A record without an id gets an id that is not yet stored, and the table grows by one. |
| `Storage.SaveRowsNumbering` | src/main/java/com/employee/web/service/EmployeeService.java:101 | Saving id-less records numbers them in list order from the generator's next id, returns one saved record per input, and advances the generator by their number. |
| `Storage.SaveRowsKeys` | src/main/java/com/employee/web/service/EmployeeService.java:101 | After saving id-less records, the stored ids are exactly the old ones plus the ids they were numbered with. |
| `Storage.SaveRowsKeepsStored` | src/main/java/com/employee/web/service/EmployeeService.java:101 | Saving id-less records leaves every stored row as it was. |
| `Storage.SaveRowsAppends` | src/main/java/com/employee/web/service/EmployeeService.java:101 | Saving id-less records puts each one, with its new id, under the id it was numbered with. |
| `Storage.SaveRowsCount` | src/main/java/com/employee/web/service/EmployeeService.java:101 | Saving n id-less records grows the table by exactly n. |
| `Storage.SaveRowsWellFormed` | src/main/java/com/employee/web/service/EmployeeService.java:101 | Saving keeps every row under its own id, with the generator past every stored id. |
| `Storage.EmployeeRepository.Save` | src/main/java/com/employee/web/service/EmployeeService.java:37 | The new table and the returned record are those `SaveRow` gives for the old table. |
| `Storage.EmployeeRepository.SaveAll` | src/main/java/com/employee/web/service/EmployeeService.java:101 | The new table and the returned records are those `SaveRows` gives for the old table: the records saved one after another, in list order. |
| `Storage.EmployeeRepository.DeleteById` | src/main/java/com/employee/web/service/EmployeeService.java:50 | Removes exactly that key. The generator is unchanged. |
| `Storage.EmployeeRepository.FindByEmail` | src/main/java/com/employee/web/dao/EmployeeDao.java:19 | A single-result query. It finds nothing exactly when no stored record has the email. It reports several matches exactly when two distinct stored records share the email. Otherwise it returns the stored record with that email. |
| `Storage.EmployeeRepository.FindAll` | src/main/java/com/employee/web/service/EmployeeService.java:23 | Lists every stored record exactly once. |
| `Storage.EmployeeRepository.FindByFirstNameContaining` | src/main/java/com/employee/web/dao/EmployeeDao.java:36 | Returns stored records whose first name contains the query, case-sensitively, and includes every such record. |
| `Service.BatchCheckPassesExactly` | src/main/java/com/employee/web/service/EmployeeService.java:95-100 | A batch passes its checks exactly when every element passes. |
| `Service.BatchCheckFirstOffender` | src/main/java/com/employee/web/service/EmployeeService.java:95-100 | When a batch fails, the failure is that of the first failing element in list order. |
| `Service.BatchCheckSuffix` | src/main/java/com/employee/web/service/EmployeeService.java:95-100 | The checks on what is left of a batch are the first element's failure, if it fails, and otherwise the checks on the rest. |
| `Service.BatchFailuresAreBadRequest` | src/main/java/com/employee/web/service/EmployeeService.java:96-98 | Every failure the batch checks raise is InvalidEmail or a runtime failure, and so is answered with 400. |
| `Service.BatchDuplicatesUndetected` | src/main/java/com/employee/web/service/EmployeeService.java:95-101 | Two elements with the same new, well-formed email both pass the batch checks, and saving the batch stores both, under two ids. Afterwards two stored records share that email. |
| `Service.EmployeeService.GetAllEmployees` | src/main/java/com/employee/web/service/EmployeeService.java:22-24 | Lists every stored record exactly once. |
| `Service.EmployeeService.GetEmployeeById` | src/main/java/com/employee/web/service/EmployeeService.java:26-29 | Returns the record stored at the id. If there is none, fails with NotFound "Employee not found with ID: <id>". Reads only. |
| `Service.EmployeeService.GetEmployeeByEmail` | src/main/java/com/employee/web/service/EmployeeService.java:63-66 | Returns the stored record with that email when exactly one record has it. If none has it, fails with NotFound "Employee not found with email: <email>". If several share it, fails with the persistence framework's RuntimeException, which the handler answers with 400. Reads only. |
| `Service.EmployeeService.SearchEmployeesByFirstName` | src/main/java/com/employee/web/service/EmployeeService.java:69-71 | Every result is stored and its first name contains the query, and every stored record whose first name contains the query is among the results. |
| `Service.EmployeeService.CountEmployees` | src/main/java/com/employee/web/service/EmployeeService.java:84-86 | Equals the number of stored records. |
| `Service.EmployeeService.AddEmployee` | src/main/java/com/employee/web/service/EmployeeService.java:32-38 | A bad or null email fails with InvalidEmail, even if it is also stored, and the table is unchanged. A well-formed email already stored fails with the duplicate runtime failure, and the table is unchanged. Otherwise the record is saved, and the table afterwards holds it under its id. For an id-less input it gets a fresh id and keeps the input's fields, the table gains exactly that row, and the count grows by one. |
| `Service.EmployeeService.UpdateEmployee` | src/main/java/com/employee/web/service/EmployeeService.java:40-46 | An id that is not stored fails with NotFound, and the table is unchanged. A stored id gets the incoming record with its id forced to the path id, whatever id the body carried. No other row changes, and the email is not checked. |
| `Service.EmployeeService.DeleteEmployee` | src/main/java/com/employee/web/service/EmployeeService.java:48-55 | A stored id: exactly that key is removed, the count drops by one, and the result is "Employee with ID <id> has been deleted.". An id that is not stored fails with NotFound, and the table is unchanged. |
| `Service.EmployeeService.AddEmployees` | src/main/java/com/employee/web/service/EmployeeService.java:94-102 | If any element fails its checks, the result is the failure of the first failing element and nothing is saved. Otherwise the whole batch is saved in order, as `SaveRows` describes. |

## Left out

- `EmployeeController.java`: HTTP routing, annotations and building the
  responses. This includes its one rule, that an empty list is answered
  with 204.
- `getEmployeesByFirstName`, `searchEmployeesByLastName`,
  `searchEmployeesByFullName` and `getUniqueFirstNames`: one-line
  pass-throughs to derived queries, whose meaning lies in the persistence
  framework.
- The timestamp of the error body: a clock read.
- Concurrency: the race between the duplicate check and the save,
  transactions, and constraints enforced by the database itself.
- Storage failures are not modelled. The repository is a Spring Data
  `JpaRepository`, so its failures are Spring's unchecked
  `DataAccessException`. The RuntimeException handler would answer them
  with 400 and their own message.
- Integer widths. Ids are unbounded integers, not 32-bit `Integer`s, and the
  `(int)` cast of the count is not modelled.
- Aliasing of the incoming employee object. Records are values, so
  `updateEmployee`'s `setId` on the caller's object is modelled as a
  returned copy that carries the path id.
- The `Employee` entity, `ErrorResponse` and the two exception classes are
  not part of this model beyond their fields and messages. First and last
  names are modelled as non-null strings.
- Storage.EmployeeRepository.Save: for a record whose id is not stored, the
  model inserts it under that id. Which id the real persistence layer would
  use depends on its id generator, which is not part of this model.
- The text of the error a single-result query raises on several matches
  comes from the persistence framework. The model uses the fixed text
  `NON_UNIQUE_RESULT_MESSAGE` in its place; only its kind, a
  RuntimeException answered with 400, is modelled.
- Storage.EmployeeRepository.FindAll: returns the records in no particular
  order. The real query gives no order either.
