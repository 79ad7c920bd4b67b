/** `ProcessExecutionResult`: when a finished process counts as failed, and the message
    describing it. `Path.GetFileName` is a parameter, and so is `Environment.NewLine`. */
module ProcessExecutionResult {
  import opened Wrappers
  import opened Numerals
  import opened StringOps

  datatype ProcessExecutionResult = ProcessExecutionResult(
    fileName: string,
    workingDirectory: string,
    arguments: seq<string>,
    exitCode: int,
    stdOut: Option<string>,
    stdErr: Option<string>)

  /** The leading sentence. */
  function Sentence(p: ProcessExecutionResult, fileNameOf: string -> string): string {
    fileNameOf(p.fileName) + " ended with exit code " + Int32String(p.exitCode) + "."
  }

  /** `ToString`: the sentence, then the error output if it is not blank, then the
      standard output if it is not blank, set off by one space after the sentence alone
      or by a blank line after the error output. */
  function Message(p: ProcessExecutionResult, fileNameOf: string -> string, newLine: string): (r: string)
    ensures |Sentence(p, fileNameOf)| <= |r|
    ensures r[..|Sentence(p, fileNameOf)|] == Sentence(p, fileNameOf)
  {
    var sentence := Sentence(p, fileNameOf);
    var err := if !IsNullOrWhiteSpace(p.stdErr) then " Stderr:" + newLine + p.stdErr.value else "";
    var out :=
      if !IsNullOrWhiteSpace(p.stdOut) then
        (if IsNullOrWhiteSpace(p.stdErr) then " " else newLine + newLine) + "Stdout:" + newLine + p.stdOut.value
      else "";
    assert (sentence + err + out)[..|sentence|] == sentence;
    sentence + err + out
  }

  /** `ThrowIfError`: a non-zero exit code fails, and so does any error output (blank or
      not) unless told otherwise; the exception carries the message. */
  function ThrowIfError(p: ProcessExecutionResult, throwIfStdErr: bool, fileNameOf: string -> string, newLine: string): (r: Result<(), string>)
    ensures r.Err? <==> p.exitCode != 0 || (throwIfStdErr && p.stdErr.Some?)
    ensures r.Err? ==> r.error == Message(p, fileNameOf, newLine)
  {
    if p.exitCode != 0 || (throwIfStdErr && p.stdErr.Some?) then Err(Message(p, fileNameOf, newLine)) else Ok(())
  }

  /** Without `throwIfStdErr` only the exit code decides, and the stricter check fails
      whenever the lenient one does. */
  lemma ExitCodeOnly(p: ProcessExecutionResult, fileNameOf: string -> string, newLine: string)
    ensures ThrowIfError(p, false, fileNameOf, newLine).Ok? <==> p.exitCode == 0
    ensures ThrowIfError(p, false, fileNameOf, newLine).Err? ==> ThrowIfError(p, true, fileNameOf, newLine).Err?
    ensures p.stdErr.None? ==> ThrowIfError(p, true, fileNameOf, newLine) == ThrowIfError(p, false, fileNameOf, newLine)
  {
  }

  /** With both outputs blank the message is the sentence alone. */
  lemma BlankOutputs(p: ProcessExecutionResult, fileNameOf: string -> string, newLine: string)
    requires IsNullOrWhiteSpace(p.stdErr) && IsNullOrWhiteSpace(p.stdOut)
    ensures Message(p, fileNameOf, newLine) == Sentence(p, fileNameOf)
  {
    assert Sentence(p, fileNameOf) + "" + "" == Sentence(p, fileNameOf);
  }

  /** The sections after the sentence: the error output section exactly when it is not
      blank, followed by the standard output section exactly when that is not blank; the
      standard output follows the sentence after a single space when there is no error
      section, and after a blank line otherwise. */
  lemma Sections(p: ProcessExecutionResult, fileNameOf: string -> string, newLine: string)
    ensures var rest := Message(p, fileNameOf, newLine)[|Sentence(p, fileNameOf)|..];
            var err := " Stderr:" + newLine + (if p.stdErr.Some? then p.stdErr.value else "");
            var out := "Stdout:" + newLine + (if p.stdOut.Some? then p.stdOut.value else "");
            && (!IsNullOrWhiteSpace(p.stdErr) && IsNullOrWhiteSpace(p.stdOut) ==> rest == err)
            && (IsNullOrWhiteSpace(p.stdErr) && !IsNullOrWhiteSpace(p.stdOut) ==> rest == " " + out)
            && (!IsNullOrWhiteSpace(p.stdErr) && !IsNullOrWhiteSpace(p.stdOut) ==> rest == err + newLine + newLine + out)
  {
    var sentence := Sentence(p, fileNameOf);
    var m := Message(p, fileNameOf, newLine);
    if !IsNullOrWhiteSpace(p.stdErr) && IsNullOrWhiteSpace(p.stdOut) {
      assert m == sentence + (" Stderr:" + newLine + p.stdErr.value) + "";
    }
    if IsNullOrWhiteSpace(p.stdErr) && !IsNullOrWhiteSpace(p.stdOut) {
      assert m == sentence + "" + (" " + "Stdout:" + newLine + p.stdOut.value);
    }
    if !IsNullOrWhiteSpace(p.stdErr) && !IsNullOrWhiteSpace(p.stdOut) {
      assert m == sentence + (" Stderr:" + newLine + p.stdErr.value) + (newLine + newLine + "Stdout:" + newLine + p.stdOut.value);
    }
  }
}
