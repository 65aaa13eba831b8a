/** The error a PDF contents extractor raises: a failure reason, the file it concerns
    (if known) and a description that is also the exception's message. */
module ExtractionErrors {
  import opened Wrappers
  import opened Strings

  datatype FailureReason = Generic | Timeout | BackendError

  /** The string value of each reason. No reason text contains "(" or starts as the
      fallback description does. */
  function ReasonText(r: FailureReason): (t: string)
    ensures t != [] && t[0] != 'f' && '(' !in t
  {
    match r
    case Generic => "uncaught error"
    case Timeout => "timed out"
    case BackendError => "backend processing failure"
  }

  /** `file_path or "<unknown>"`: a missing or empty path is shown as "<unknown>". */
  function PathText(filePath: Option<string>): (t: string)
    ensures t == "<unknown>" <==> filePath == None || filePath == Some("") || filePath == Some("<unknown>")
    ensures filePath.Some? && filePath.value != "" ==> t == filePath.value
  {
    match filePath
    case None => "<unknown>"
    case Some(p) => if p == "" then "<unknown>" else p
  }

  const FailedPrefix: string := "failed to extract contents of "

  /** The description: "{reason}({path}): {info}" with additional information, else
      "failed to extract contents of {path}: {reason}". */
  function Description(info: string, filePath: Option<string>, reason: FailureReason): (d: string)
    ensures info != [] ==> |d| == |ReasonText(reason)| + 1 + |PathText(filePath)| + |"): " + info|
    ensures info == [] ==> |d| == |FailedPrefix| + |PathText(filePath)| + |": " + ReasonText(reason)|
    ensures info != [] ==> StartsWith(d, ReasonText(reason) + "(") && EndsWith(d, "): " + info)
    ensures info != [] ==> d[|ReasonText(reason)| + 1..|d| - |"): " + info|] == PathText(filePath)
    ensures info == [] ==> StartsWith(d, FailedPrefix) && EndsWith(d, ": " + ReasonText(reason))
    ensures info == [] ==> d[|FailedPrefix|..|d| - |": " + ReasonText(reason)|] == PathText(filePath)
  {
    if info != [] then
      Framed(ReasonText(reason) + "(", PathText(filePath), "): " + info)
    else
      Framed(FailedPrefix, PathText(filePath), ": " + ReasonText(reason))
  }

  /** Which of the two forms a description takes is decided by whether additional
      information was given: no reason text begins like the fallback form. */
  lemma DescriptionFormDecidedByInfo(info: string, filePath: Option<string>, reason: FailureReason)
    ensures StartsWith(Description(info, filePath, reason), FailedPrefix) <==> info == []
  {
    var d := Description(info, filePath, reason);
    if info != [] {
      assert d[0] == (ReasonText(reason) + "(")[0] == ReasonText(reason)[0];
      assert FailedPrefix[0] == 'f';
    }
  }

  /** Descriptions with the same additional information tell reasons and shown paths
      apart: the reason is what precedes the first "(". */
  lemma {:induction false} DescriptionIdentifiesReasonAndPath(info: string, p: Option<string>, q: Option<string>,
                                                              r1: FailureReason, r2: FailureReason)
    requires info != []
    requires Description(info, p, r1) == Description(info, q, r2)
    ensures r1 == r2
    ensures PathText(p) == PathText(q)
  {
    var d := Description(info, p, r1);
    var t1, t2 := ReasonText(r1), ReasonText(r2);
    assert d[..|t1| + 1] == t1 + "(" && d[..|t2| + 1] == t2 + "(";
    assert t1 == d[..|t1|] == t2;
    ReasonTextInjective(r1, r2);
  }

  lemma ReasonTextInjective(r1: FailureReason, r2: FailureReason)
    requires ReasonText(r1) == ReasonText(r2)
    ensures r1 == r2
  {
  }

  /** `FileContentsExtractionError`: the stored fields, and the message it was raised with. */
  datatype ExtractionError = ExtractionError(reason: FailureReason, filePath: Option<string>,
                                             description: string, message: string)

  /** Building the error stores the reason and path as given and uses the description
      as the message. */
  function MakeError(reason: FailureReason, filePath: Option<string>, info: string): (e: ExtractionError)
    ensures e.reason == reason && e.filePath == filePath
    ensures e.message == e.description
    ensures e.description == Description(info, filePath, reason)
  {
    var d := Description(info, filePath, reason);
    ExtractionError(reason, filePath, d, d)
  }
}
