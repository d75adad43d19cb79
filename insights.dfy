/** The summary service's fail-soft answers. */
module Insights {

  /** What the remote model gave back: its text (possibly empty), or an error. */
  datatype Reply = Text(text: string) | Failed

  /** `analyzeAttendance`: never throws and never returns an empty string. */
  function AnalyzeAttendance(hasApiKey: bool, reply: Reply): (r: string)
    ensures r != ""
    ensures !hasApiKey ==> r == "AI Insights unavailable: Missing API Key."
    ensures hasApiKey && reply.Failed? ==> r == "Error generating AI insights."
    ensures hasApiKey && reply.Text? && reply.text != "" ==> r == reply.text
    ensures hasApiKey && reply.Text? && reply.text == "" ==> r == "No insights generated."
  {
    if !hasApiKey then "AI Insights unavailable: Missing API Key."
    else match reply
      case Failed => "Error generating AI insights."
      case Text(t) => if t != "" then t else "No insights generated."
  }
}
