/**
 * `loadMetadata` of rime-mod/main.mjs: the parsers of `METADATA_PARSERS` are tried in order,
 * the first one whose `test` passes and whose construction returns is the result, a
 * `RIMEError` thrown by a construction is thrown on at once, and every other failure adds a
 * message to the `FileUnsupportedError` thrown at the end (rime-mod/error.mjs).
 *
 * A parser is modelled by what it does with the one file being loaded: its name, whether its
 * `test` passes, and what `new parser(file)` returns or throws. The source builds the
 * message of a failing test with `parser.name()`, a call on the class's string property that
 * cannot run; the model uses the name itself, which is the evident intent.
 */
module MainDispatch {
  import opened Wrappers
  import JsText
  import BinaryManipulation
  import JpegIfd
  import JpegMetadata

  /**
   * What a construction can throw: a `RIMEError` with its short and long message, an `Error`
   * with its message, or any other value with the text of its `toString()`.
   */
  datatype Thrown = RimeError(short: string, long: string) | ErrorObject(message: string) | OtherValue(text: string)

  /** One parser of the list, applied to the file being loaded. */
  datatype Trial<M> = Trial(name: string, passes: bool, outcome: Result<M, Thrown>)

  const UNSUPPORTED_SHORT: string := "File Unsupported"
  const UNSUPPORTED_PREFIX: string := "The file you try to load is currently not supported by RIME: "

  /** `new FileUnsupportedError(errors)`. */
  function FileUnsupported(errors: seq<string>): Thrown
  {
    RimeError(UNSUPPORTED_SHORT, UNSUPPORTED_PREFIX + JsText.Join(errors, ", "))
  }

  /** The text pushed for a caught value: `error.message` for an `Error`, else `toString()`. */
  function Message(t: Thrown): string
  {
    match t
    case RimeError(short, _) => short
    case ErrorObject(message) => message
    case OtherValue(text) => text
  }

  /** A trial after which the loop goes on to the next parser. */
  predicate Continues<M>(t: Trial<M>)
  {
    !t.passes || (t.outcome.Failure? && !t.outcome.error.RimeError?)
  }

  /** The message a trial that does not stop the loop adds to `errors`. */
  function Contribution<M>(t: Trial<M>): string
  {
    if t.passes && t.outcome.Failure? then Message(t.outcome.error) else "Not " + t.name
  }

  /** The loop of `loadMetadata` from the trials still to run, with the messages gathered so far. */
  function Dispatch<M>(trials: seq<Trial<M>>, errors: seq<string>): (r: Result<M, Thrown>)
    ensures r.Failure? ==> r.error.RimeError?
    ensures r.Success? ==> exists i :: 0 <= i < |trials| && trials[i].passes && trials[i].outcome == Success(r.value)
    decreases |trials|
  {
    if trials == [] then Failure(FileUnsupported(errors))
    else
      var t := trials[0];
      if !t.passes then Dispatch(trials[1..], errors + ["Not " + t.name])
      else
        match t.outcome
        case Success(m) => Success(m)
        case Failure(e) =>
          if e.RimeError? then Failure(e) else Dispatch(trials[1..], errors + [Message(e)])
  }

  /** The position of the first trial that ends the loop, or the number of trials when none does. */
  function FirstStop<M>(trials: seq<Trial<M>>): (r: nat)
    ensures r <= |trials|
    ensures forall j :: 0 <= j < r ==> Continues(trials[j])
    ensures r < |trials| ==> !Continues(trials[r])
  {
    if trials == [] || !Continues(trials[0]) then 0 else 1 + FirstStop(trials[1..])
  }

  /** The messages of all trials, in the order of the list. */
  function Messages<M>(trials: seq<Trial<M>>): (r: seq<string>)
    ensures |r| == |trials|
    ensures forall j :: 0 <= j < |trials| ==> r[j] == Contribution(trials[j])
  {
    seq(|trials|, j requires 0 <= j < |trials| => Contribution(trials[j]))
  }

  /**
   * `loadMetadata` returns or throws what the first stopping trial returns or throws: the
   * object of the first passing parser whose construction returns, or the `RIMEError` of the
   * first construction that throws one.
   */
  lemma {:induction false} DispatchStops<M>(trials: seq<Trial<M>>, errors: seq<string>)
    requires FirstStop(trials) < |trials|
    ensures Dispatch(trials, errors) == trials[FirstStop(trials)].outcome
    decreases |trials|
  {
    if Continues(trials[0]) {
      var next := errors + [Contribution(trials[0])];
      assert Dispatch(trials, errors) == Dispatch(trials[1..], next);
      DispatchStops(trials[1..], next);
      assert trials[FirstStop(trials)] == trials[1..][FirstStop(trials[1..])];
    }
  }

  /**
   * When no trial stops the loop, `loadMetadata` throws `FileUnsupportedError` with the
   * messages of all trials in order, "Not " and the name for a failing test.
   */
  lemma {:induction false} DispatchExhausts<M>(trials: seq<Trial<M>>, errors: seq<string>)
    requires FirstStop(trials) == |trials|
    ensures Dispatch(trials, errors) == Failure(FileUnsupported(errors + Messages(trials)))
    decreases |trials|
  {
    if trials == [] {
      assert errors + Messages(trials) == errors;
    } else {
      var next := errors + [Contribution(trials[0])];
      assert Dispatch(trials, errors) == Dispatch(trials[1..], next);
      DispatchExhausts(trials[1..], next);
      MessagesCons(trials);
      JsText.ConcatAssoc(errors, [Contribution(trials[0])], Messages(trials[1..]));
    }
  }

  lemma MessagesCons<M>(trials: seq<Trial<M>>)
    requires trials != []
    ensures Messages(trials) == [Contribution(trials[0])] + Messages(trials[1..])
  {
    assert Messages(trials) == [Contribution(trials[0])] + Messages(trials[1..]);
  }

  /** A successful load is the construction of a parser whose test passed, and no earlier one stopped the loop. */
  lemma FirstSuccess<M>(trials: seq<Trial<M>>, m: M)
    requires Dispatch(trials, []) == Success(m)
    ensures exists i :: 0 <= i < |trials| && trials[i].passes && trials[i].outcome == Success(m)
                        && forall j :: 0 <= j < i ==> Continues(trials[j])
  {
    if FirstStop(trials) == |trials| {
      DispatchExhausts(trials, []);
    } else {
      DispatchStops(trials, []);
    }
  }

  /** A `RIMEError` thrown by a construction is what the load throws, whatever the later parsers do. */
  lemma RimeErrorPropagates<M>(trials: seq<Trial<M>>, i: nat, short: string, long: string)
    requires i < |trials| && trials[i].passes && trials[i].outcome == Failure(RimeError(short, long))
    requires forall j :: 0 <= j < i ==> Continues(trials[j])
    ensures Dispatch(trials, []) == Failure(RimeError(short, long))
  {
    FirstStopIs(trials, i);
    DispatchStops(trials, []);
  }

  lemma {:induction false} FirstStopIs<M>(trials: seq<Trial<M>>, i: nat)
    requires i < |trials| && !Continues(trials[i])
    requires forall j :: 0 <= j < i ==> Continues(trials[j])
    ensures FirstStop(trials) == i
  {
    if i > 0 {
      assert Continues(trials[0]);
      FirstStopIs(trials[1..], i - 1);
    }
  }

  /** `loadMetadata(file)` over the parsers applied to `file`. */
  method LoadMetadata<M>(trials: seq<Trial<M>>) returns (r: Result<M, Thrown>)
    ensures r == Dispatch(trials, [])
  {
    var errors: seq<string> := [];
    var k := 0;
    while k < |trials|
      invariant k <= |trials|
      invariant Dispatch(trials[k..], errors) == Dispatch(trials, [])
    {
      var parser := trials[k];
      assert trials[k..][1..] == trials[k + 1..];
      if parser.passes {
        match parser.outcome {
          case Success(m) =>
            return Success(m);
          case Failure(e) =>
            if e.RimeError? {
              return Failure(e);
            }
            errors := errors + [Message(e)];
        }
      } else {
        errors := errors + ["Not " + parser.name];
      }
      k := k + 1;
    }
    assert trials[k..] == [];
    return Failure(FileUnsupported(errors));
  }

  /** The `name` of the `JPEGMetadata` class. */
  const JPEG_PARSER_NAME: string := "JPEGMetadata"

  /** The one parser of `METADATA_PARSERS`, `JPEGMetadata`, on `file`; `None` where its constructor never returns. */
  function JpegTrial(file: seq<BinaryManipulation.byte>): Option<Trial<JpegMetadata.JpegState>>
  {
    var passes := JpegMetadata.Test(file);
    match JpegMetadata.LoadSpec(file)
    case Success(st) => Some(Trial(JPEG_PARSER_NAME, passes, Success(st)))
    case Failure(e) => if e.Thrown? then Some(Trial(JPEG_PARSER_NAME, passes, Failure(ErrorObject(e.message)))) else None
  }

  /**
   * A list of one parser: its object when its test passes and its construction returns, the
   * error it throws when that is a `RIMEError`, and otherwise `FileUnsupportedError` with the
   * one message the trial contributes.
   */
  lemma OneTrial<M>(t: Trial<M>)
    ensures !t.passes ==> Dispatch([t], []) == Failure(RimeError(UNSUPPORTED_SHORT, UNSUPPORTED_PREFIX + ("Not " + t.name)))
    ensures t.passes && t.outcome.Success? ==> Dispatch([t], []) == t.outcome
    ensures t.passes && t.outcome.Failure? && !t.outcome.error.RimeError? ==>
              Dispatch([t], []) == Failure(RimeError(UNSUPPORTED_SHORT, UNSUPPORTED_PREFIX + Message(t.outcome.error)))
  {
    assert [t][1..] == [];
    assert forall m: string :: [] + [m] == [m] && JsText.Join([m], ", ") == m;
  }

  /**
   * Loading with the parser list of the source: a file that is not a JPEG is unsupported with
   * the message "Not JPEGMetadata"; a JPEG file gives the decoded object, or is unsupported
   * with the message the constructor threw.
   */
  lemma JpegDispatch(file: seq<BinaryManipulation.byte>)
    requires JpegTrial(file).Some?
    ensures var r := Dispatch([JpegTrial(file).value], []);
            && (!JpegMetadata.Test(file) ==> r == Failure(RimeError(UNSUPPORTED_SHORT, UNSUPPORTED_PREFIX + ("Not " + JPEG_PARSER_NAME))))
            && (JpegMetadata.LoadSpec(file).Success? ==> r == Success(JpegMetadata.LoadSpec(file).value))
            && (forall message :: JpegMetadata.Test(file) && JpegMetadata.LoadSpec(file) == Failure(JpegIfd.Thrown(message)) ==>
                  r == Failure(RimeError(UNSUPPORTED_SHORT, UNSUPPORTED_PREFIX + message)))
  {
    var t := JpegTrial(file).value;
    OneTrial(t);
  }
}
