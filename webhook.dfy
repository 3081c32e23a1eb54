/**
 * One POST to `/webhook` once the API key has been accepted (main.py lines
 * 154-238): find the sender among the employees, route the message, act on
 * the attendance table or hand the text to the question-answering service,
 * and reply.
 */
module Webhook {
  import opened Wrappers
  import opened Routing
  import opened SqlGate
  import opened Directory
  import opened Store

  const NotAuthorized: string := "You are not authorized to use this service."
  const NoInformation: string := "Oops, currently I don't have that information."

  /** How a request ends: the reply message, or a server error. */
  datatype Response = Sent(reply: string) | ServerError(failure: Failure)

  datatype Failure =
    | NoneHasNoSplit  // line 209: no fenced block, so `query` is None when `.split()` is called
    | ReplyUnbound    // line 224: the "notsure" branch never assigns `reply`; caught, status 500

  /** The reply to a today-query (lines 180-183); an empty stored status
      reads as no record. */
  function TodayReply(today: string, found: Option<string>): string {
    if HasStatus(found) then "Your attendance for today (" + today + ") is: " + found.value
    else "No record found for " + today
  }

  /** The reply to a free-form question (line 221). */
  function AnswerReply(answer: string): string {
    if answer != "" then answer else NoInformation
  }

  /** `execute_query` on a statement: the table afterwards and the text of the
      result as the reply shows it. */
  type Executor = (string, seq<Record>) -> (seq<Record>, string)

  /**
   * The webhook. `message` is the text after any audio has been transcribed,
   * `today` the formatted current date, `qaAnswer` the service's answer to
   * the message as a question and `sqlAnswer` its answer to the SQL-writing
   * prompt; `execute` runs a statement against the table.
   */
  method HandleMessage(table: AttendanceTable, employees: seq<Employee>, sender: string, message: string,
                       today: string, qaAnswer: string, sqlAnswer: string, execute: Executor)
    returns (response: Response)
    requires '\'' !in today
    modifies table
    ensures GetEmployee(employees, PhoneKey(sender)) == [] ==>
              response == Sent(NotAuthorized) && table.records == old(table.records)
    ensures GetEmployee(employees, PhoneKey(sender)) != [] ==>
              var me := GetEmployee(employees, PhoneKey(sender))[0];
              match Classify(message, me.role)
              case QueryToday =>
                && response == Sent(TodayReply(today, Lookup(old(table.records), me.id, today)))
                && table.records == old(table.records)
              case MarkAttendance(status) =>
                && response == Sent("Attendance recorded: " + status)
                && table.records == Upsert(old(table.records), me.id, today, status)
              case CustomSql(_) =>
                (match Screen(sqlAnswer)
                 case NoFence =>
                   response == ServerError(NoneHasNoSplit) && table.records == old(table.records)
                 case NotSure(_) =>
                   response == ServerError(ReplyUnbound) && table.records == old(table.records)
                 case Run(statement) =>
                   && response == Sent("Your result is \n " + execute(statement, old(table.records)).1)
                   && table.records == execute(statement, old(table.records)).0)
              case FreeForm(_) =>
                response == Sent(AnswerReply(qaAnswer)) && table.records == old(table.records)
  {
    var rows := GetEmployee(employees, PhoneKey(sender));
    if rows == [] {
      return Sent(NotAuthorized);
    }
    var me := rows[0];
    match Classify(message, me.role)
    case QueryToday =>
      var found := table.GetAttendance(me.id, today);
      response := Sent(TodayReply(today, found));
    case MarkAttendance(status) =>
      var recorded := table.AddAttendance(me.id, today, status);
      response := Sent("Attendance recorded: " + recorded);
    case CustomSql(_) =>
      match Screen(sqlAnswer) {
        case NoFence =>
          response := ServerError(NoneHasNoSplit);
        case NotSure(_) =>
          response := ServerError(ReplyUnbound);
        case Run(statement) =>
          var outcome := execute(statement, table.records);
          table.records := outcome.0;
          response := Sent("Your result is \n " + outcome.1);
      }
    case FreeForm(_) =>
      response := Sent(AnswerReply(qaAnswer));
  }
}
