/**
 * The employee table as the webhook sees it through `get_employee`
 * (main.py lines 51-56 and 160-161): the rows whose phone contains the
 * last ten characters of the sender's number.
 */
module Directory {
  import opened Text

  datatype Employee = Employee(id: int, phone: string, role: string)

  /** `phone_number[-10:]`: the last ten characters, or all of a shorter string. */
  function PhoneKey(phone: string): (key: string)
    ensures |key| == if |phone| < 10 then |phone| else 10
    ensures phone == phone[..|phone| - |key|] + key
  {
    if |phone| <= 10 then phone else phone[|phone| - 10..]
  }

  /** The webhook slices the sender's number (line 160) and `get_employee`
      slices it again (line 53); the second slice changes nothing. */
  lemma PhoneKeyIdempotent(phone: string)
    ensures PhoneKey(PhoneKey(phone)) == PhoneKey(phone)
  {
  }

  /** The rows of `phone LIKE '%key%'`, in table order. */
  function FindByPhone(employees: seq<Employee>, key: string): (rows: seq<Employee>)
    ensures |rows| <= |employees|
    ensures forall e :: e in rows <==> e in employees && Contains(e.phone, key)
  {
    if employees == [] then []
    else
      var rest := FindByPhone(employees[1..], key);
      assert forall e :: e in employees <==> e == employees[0] || e in employees[1..];
      if Contains(employees[0].phone, key) then [employees[0]] + rest else rest
  }

  /** `get_employee(phone)`. */
  function GetEmployee(employees: seq<Employee>, phone: string): (rows: seq<Employee>)
    ensures forall e :: e in rows <==> e in employees && Contains(e.phone, PhoneKey(phone))
  {
    FindByPhone(employees, PhoneKey(phone))
  }

  /** Looking up the pre-sliced sender number is looking up the number itself. */
  lemma SenderLookup(employees: seq<Employee>, sender: string)
    ensures GetEmployee(employees, PhoneKey(sender)) == GetEmployee(employees, sender)
  {
    PhoneKeyIdempotent(sender);
  }

  /** Every employee's phone ends with its own key, so an employee is always
      found by the number stored for them. */
  lemma OwnNumberFound(employees: seq<Employee>, e: Employee)
    requires e in employees
    ensures e in GetEmployee(employees, e.phone)
  {
    var key := PhoneKey(e.phone);
    assert MatchAt(e.phone, key, |e.phone| - |key|);
  }

  /** An empty sender number makes an empty pattern, `LIKE '%%'`, which every
      row matches. */
  lemma {:induction false} EmptyKeyMatchesAll(employees: seq<Employee>)
    ensures FindByPhone(employees, "") == employees
  {
    if employees != [] {
      assert MatchAt(employees[0].phone, "", 0);
      EmptyKeyMatchesAll(employees[1..]);
    }
  }
}
