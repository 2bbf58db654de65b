/** `validateCode`: the single-flight flag and the background job that
    turns one request into exactly one result text. Whether the file
    exists is a parameter (the value `std::filesystem::exists` gave), and
    the external tool is the oracle `exec`. */
module Job {
  import opened Wrappers
  import opened Validators
  import opened Selection

  const EmptyPathMessage := "Please select a file to validate."
  const MissingFilePrefix := "File does not exist: "
  const UnsupportedMessage := "Unsupported file type or language selection."
  // Written as two literals only because the verifier cannot index into a
  // single literal this long; the text is the source's one message.
  const MismatchMessage := "Selected language " + "doesn't match the file extension."

  /** The background job: the first case that applies decides the result,
      in the order empty path, missing file, no validator, validator that
      does not accept the file, and finally the validator's own result. */
  function RunJob(filePath: string, fileExists: bool, language: string, exec: string -> string): (r: Report)
    ensures filePath == [] ==> r == Report(EmptyPathMessage, [])
    ensures filePath != [] && !fileExists ==> r == Report(MissingFilePrefix + filePath, [])
    ensures filePath != [] && fileExists ==>
      (r.result == UnsupportedMessage <==> GetValidator(language, filePath).None?)
    ensures r.issued != [] <==>
      filePath != [] && fileExists && GetValidator(language, filePath).Some? &&
      IsCompatible(GetValidator(language, filePath).value, filePath)
    ensures r.issued != [] ==>
      r == Validate(GetValidator(language, filePath).value, filePath, exec)
  {
    if filePath == [] then Report(EmptyPathMessage, [])
    else if !fileExists then Report(MissingFilePrefix + filePath, [])
    else match GetValidator(language, filePath)
      case None => Report(UnsupportedMessage, [])
      case Some(l) =>
        if !IsCompatible(l, filePath) then
          FirstCharacters();
          Report(MismatchMessage, [])
        else
          ValidatorTextIsNotAMessage(l, filePath, exec);
          Validate(l, filePath, exec)
  }

  /** The kinds of outcome a reader of the result text can tell apart. */
  datatype Status = InputError | SelectionError | CompileError | RuntimeOutput | Unrecognised

  /** Reads the kind of outcome off the start of a result text. */
  function Classify(text: string): Status {
    if text == EmptyPathMessage || MissingFilePrefix <= text then InputError
    else if text == UnsupportedMessage || text == MismatchMessage then SelectionError
    else if ErrorPrefix(Java) <= text || ErrorPrefix(Python) <= text then CompileError
    else if SuccessBanner <= text then RuntimeOutput
    else Unrecognised
  }

  /** The first characters that tell the fixed texts apart. */
  lemma FirstCharacters()
    ensures EmptyPathMessage[0] == 'P' && MissingFilePrefix[0] == 'F'
    ensures UnsupportedMessage[0] == 'U' && MismatchMessage[0] == 'S' && MismatchMessage[1] == 'e'
    ensures ErrorPrefix(Python)[0] == 'S' && ErrorPrefix(Python)[1] == 'y'
    ensures ErrorPrefix(Java)[0] == 'C' && ErrorPrefix(Java)[12] == 'e'
    ensures SuccessBanner[0] == 'C' && SuccessBanner[12] == 's'
  {
  }

  /** A text starting like a validator's result is none of the job's
      own messages. */
  lemma NotAMessage(t: string)
    requires |t| >= 2 && (t[0] == 'C' || (t[0] == 'S' && t[1] == 'y'))
    ensures t != EmptyPathMessage && !(MissingFilePrefix <= t)
    ensures t != UnsupportedMessage && t != MismatchMessage
  {
    FirstCharacters();
  }

  /** No validator result is mistaken for one of the job's own messages. */
  lemma ValidatorTextIsNotAMessage(l: Lang, filePath: string, exec: string -> string)
    ensures var t := Validate(l, filePath, exec).result;
      t != EmptyPathMessage && !(MissingFilePrefix <= t) &&
      t != UnsupportedMessage && t != MismatchMessage
  {
    var r := Validate(l, filePath, exec);
    var out := exec(r.issued[|r.issued| - 1]);
    var prefix := if |r.issued| == 2 then SuccessBanner else ErrorPrefix(l);
    PrefixedTextIsNotAMessage(prefix, out);
  }

  lemma PrefixedTextIsNotAMessage(prefix: string, out: string)
    requires prefix == SuccessBanner || prefix == ErrorPrefix(Java) || prefix == ErrorPrefix(Python)
    ensures var t := prefix + out;
      t != EmptyPathMessage && !(MissingFilePrefix <= t) &&
      t != UnsupportedMessage && t != MismatchMessage
  {
    FirstCharacters();
    var t := prefix + out;
    assert t[0] == prefix[0] && t[1] == prefix[1];
    NotAMessage(t);
  }

  /** A validator's text is read as a compile error or as run output,
      according to whether the program was run. */
  lemma ClassifyValidatorText(l: Lang, filePath: string, exec: string -> string)
    ensures var r := Validate(l, filePath, exec);
      Classify(r.result) == if |r.issued| == 2 then RuntimeOutput else CompileError
  {
    var r := Validate(l, filePath, exec);
    ValidatorTextIsNotAMessage(l, filePath, exec);
    ResultShowsPhase(l, filePath, exec);
    var t := r.result;
    if |r.issued| == 2 {
      FirstCharacters();
      assert SuccessBanner <= t;
      assert t[0] == 'C' && t[12] == 's';
      assert !(ErrorPrefix(Java) <= t) && !(ErrorPrefix(Python) <= t);
    }
  }

  /** The result text tells how far the job got: an input error exactly
      when the path is empty or missing, a selection error exactly when a
      present file reached no tool, a compile error exactly when only the
      check ran, run output exactly when the program ran. */
  lemma StatusShowsProgress(filePath: string, fileExists: bool, language: string, exec: string -> string)
    ensures var r := RunJob(filePath, fileExists, language, exec);
      (Classify(r.result) == InputError <==> filePath == [] || !fileExists) &&
      (Classify(r.result) == SelectionError <==>
        filePath != [] && fileExists && r.issued == []) &&
      (Classify(r.result) == CompileError <==> |r.issued| == 1) &&
      (Classify(r.result) == RuntimeOutput <==> |r.issued| == 2)
  {
    var r := RunJob(filePath, fileExists, language, exec);
    FirstCharacters();
    if filePath == [] {
      assert Classify(r.result) == InputError;
    } else if !fileExists {
      assert MissingFilePrefix <= r.result;
    } else if r.issued == [] {
      assert r.result == UnsupportedMessage || r.result == MismatchMessage;
      assert Classify(r.result) == SelectionError;
    } else {
      ClassifyValidatorText(GetValidator(language, filePath).value, filePath, exec);
    }
  }

  /** "doesn't match the file extension" can only come from an explicit
      language choice: auto-detection never picks a validator that then
      refuses the file. */
  lemma MismatchOnlyFromExplicitTag(filePath: string, fileExists: bool, language: string, exec: string -> string)
    ensures RunJob(filePath, fileExists, language, exec).result == MismatchMessage <==>
      filePath != [] && fileExists && language != AutoTag &&
      GetValidator(language, filePath).Some? &&
      !IsCompatible(GetValidator(language, filePath).value, filePath)
  {
    if filePath != [] && fileExists {
      match GetValidator(language, filePath)
      case None =>
      case Some(l) =>
        ValidatorTextIsNotAMessage(l, filePath, exec);
        if language == AutoTag {
          AutoDetectIff(filePath, l);
        }
    } else {
      FirstCharacters();
      if filePath != [] {
        assert (MissingFilePrefix + filePath)[0] == 'F';
      }
    }
  }

  /** One request as the job captures it when it is accepted. */
  datatype Request = Request(filePath: string, language: string)

  /** The process-wide "validation in progress" flag together with the
      request of the job it guards. */
  class JobSlot {
    var inProgress: bool
    var pending: Option<Request>

    ghost predicate Valid()
      reads this
    {
      inProgress <==> pending.Some?
    }

    /** At start-up no validation is in progress. */
    constructor ()
      ensures Valid() && !inProgress
    {
      inProgress := false;
      pending := None;
    }

    /** Test-and-set under the lock: a request made while a job runs is
        rejected and leaves that job alone; otherwise it is accepted and
        becomes the job. */
    method TryBegin(filePath: string, language: string) returns (accepted: bool)
      requires Valid()
      modifies this
      ensures Valid() && inProgress
      ensures accepted == !old(inProgress)
      ensures pending == if accepted then Some(Request(filePath, language)) else old(pending)
    {
      if inProgress {
        accepted := false;
        return;
      }
      inProgress := true;
      pending := Some(Request(filePath, language));
      accepted := true;
    }

    /** The accepted job's background task: compute the one result for its
        request, deliver it, then clear the flag. */
    method Finish(fileExists: bool, exec: string -> string) returns (result: string)
      requires Valid() && inProgress
      modifies this
      ensures Valid() && !inProgress
      ensures result == RunJob(old(pending).value.filePath, fileExists,
                               old(pending).value.language, exec).result
    {
      var request := pending.value;
      result := RunJob(request.filePath, fileExists, request.language, exec).result;
      inProgress := false;
      pending := None;
    }
  }

  /** Two requests in a row: the second is rejected while the first runs,
      the first still gets its own result, and once that is delivered a
      new request is accepted again. */
  method RejectedRequestLeavesJob(first: Request, second: Request, fileExists: bool, exec: string -> string)
    returns (acceptedFirst: bool, acceptedSecond: bool, result: string, acceptedAfter: bool)
    ensures acceptedFirst && !acceptedSecond && acceptedAfter
    ensures result == RunJob(first.filePath, fileExists, first.language, exec).result
  {
    var slot := new JobSlot();
    acceptedFirst := slot.TryBegin(first.filePath, first.language);
    acceptedSecond := slot.TryBegin(second.filePath, second.language);
    result := slot.Finish(fileExists, exec);
    acceptedAfter := slot.TryBegin(second.filePath, second.language);
  }
}
